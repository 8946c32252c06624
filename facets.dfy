/**
 * The facet extractor `scrapeFacets` (backend/src/scraper.ts).
 *
 * The listing page is a snapshot: the candidate filter containers in
 * document order, each with the text of its first heading-like element,
 * the checkbox and radio inputs it holds and the anchors whose `href`
 * contains a `?`, plus the page's `label` elements, which the scraper
 * searches page-wide by their `for` attribute.
 */
module Facets {
  import opened Wrappers
  import opened Text

  datatype InputKind = Checkbox | Radio

  /** An `<input>`: its `id`, `type`, `value` and `data-href` attributes. */
  datatype Input = Input(id: Option<string>, kind: InputKind, value: Option<string>, dataHref: Option<string>)

  /** An `<a href*="?">`: its inner text and its `href` attribute. */
  datatype Anchor = Anchor(text: string, href: Option<string>)

  /** A candidate filter container. */
  datatype Container = Container(heading: Option<string>, inputs: seq<Input>, anchors: seq<Anchor>)

  /** A `<label>`: its `for` attribute and its inner text. */
  datatype LabelElement = LabelElement(forId: Option<string>, text: string)

  datatype ListingPage = ListingPage(containers: seq<Container>, labels: seq<LabelElement>)

  /** `FacetValue`: the option's label and its query fragment such as `size=L`. */
  datatype FacetValue = FacetValue(labelText: string, qs: string)

  /** `FacetGroup`: `multi` is true for check-boxes, false for radio buttons. */
  datatype FacetGroup = FacetGroup(name: string, multi: bool, values: seq<FacetValue>)

  /** The longest group name kept. */
  const MaxName: nat := 40

  /** `page.$('label[for="id"]')`: the text of the first label for `id`. */
  function LabelFor(labels: seq<LabelElement>, id: string): Option<string> {
    if labels == [] then None
    else if labels[0].forId == Some(id) then Some(labels[0].text)
    else LabelFor(labels[1..], id)
  }

  /**
   * The label lookup finds the first label whose `for` is `id`, and fails
   * only when there is none.
   */
  lemma {:induction false} LabelForFirst(labels: seq<LabelElement>, id: string)
    ensures LabelFor(labels, id).None? <==> forall i :: 0 <= i < |labels| ==> labels[i].forId != Some(id)
    ensures forall i :: 0 <= i < |labels| && labels[i].forId == Some(id) &&
                        (forall j :: 0 <= j < i ==> labels[j].forId != Some(id)) ==>
                        LabelFor(labels, id) == Some(labels[i].text)
    decreases |labels|
  {
    if labels != [] && labels[0].forId != Some(id) {
      LabelForFirst(labels[1..], id);
      assert forall i :: 1 <= i < |labels| ==> labels[i] == labels[1..][i - 1];
    }
  }

  /**
   * The label of an input: the trimmed text of its `label[for=id]` when
   * there is an `id` and that text is not empty, else its own `value`
   * attribute untrimmed, else `''`.
   */
  function InputLabel(labels: seq<LabelElement>, inp: Input): string {
    var found := if inp.id.Some? && inp.id.value != "" then LabelFor(labels, inp.id.value) else None;
    var own := Trim(found.GetOr(""));
    if own != "" then own else inp.value.GetOr("")
  }

  /** `if (text && qs) values.push({ label: text, qs })`. */
  function Retain(text: string, qs: string): Option<FacetValue> {
    if text != "" && qs != "" then Some(FacetValue(text, qs)) else None
  }

  /** The value an input contributes, if any. */
  function InputValue(labels: seq<LabelElement>, inp: Input): Option<FacetValue> {
    Retain(InputLabel(labels, inp), QueryFragment(inp.dataHref.GetOr("")))
  }

  /** The value an anchor contributes, if any. */
  function AnchorValue(a: Anchor): Option<FacetValue> {
    Retain(Trim(a.text), QueryFragment(a.href.GetOr("")))
  }

  /** The values the input loop pushes, in input order. */
  function InputValues(labels: seq<LabelElement>, inputs: seq<Input>): seq<FacetValue> {
    if inputs == [] then []
    else
      var prefix := InputValues(labels, inputs[..|inputs| - 1]);
      match InputValue(labels, inputs[|inputs| - 1])
      case None => prefix
      case Some(v) => prefix + [v]
  }

  /** The values the anchor loop pushes, in anchor order. */
  function AnchorValues(anchors: seq<Anchor>): seq<FacetValue> {
    if anchors == [] then []
    else
      var prefix := AnchorValues(anchors[..|anchors| - 1]);
      match AnchorValue(anchors[|anchors| - 1])
      case None => prefix
      case Some(v) => prefix + [v]
  }

  /** One strategy per container: inputs when there are any, else anchors. */
  function BoxValues(labels: seq<LabelElement>, box: Container): seq<FacetValue> {
    if |box.inputs| > 0 then InputValues(labels, box.inputs)
    else if |box.anchors| > 0 then AnchorValues(box.anchors)
    else []
  }

  /** `box.$$('input[type=checkbox]').length > 0`. */
  predicate HasCheckbox(inputs: seq<Input>) {
    exists i :: 0 <= i < |inputs| && inputs[i].kind == Checkbox
  }

  /**
   * The trimmed heading, when there is one and it is non-empty and at most
   * `MaxName` UTF-16 code units long.
   */
  function GroupName(box: Container): Option<string> {
    match box.heading
    case None => None
    case Some(h) =>
      var name := Trim(h);
      if name == "" || Utf16Length(name) > MaxName then None else Some(name)
  }

  /** The group a container contributes, if any. */
  function GroupOf(labels: seq<LabelElement>, box: Container): Option<FacetGroup> {
    match GroupName(box)
    case None => None
    case Some(name) =>
      var values := BoxValues(labels, box);
      if |values| > 0 then Some(FacetGroup(name, HasCheckbox(box.inputs), values)) else None
  }

  /** The groups the container loop pushes, in container order. */
  function GroupsOf(labels: seq<LabelElement>, boxes: seq<Container>): seq<FacetGroup> {
    if boxes == [] then []
    else
      var prefix := GroupsOf(labels, boxes[..|boxes| - 1]);
      match GroupOf(labels, boxes[|boxes| - 1])
      case None => prefix
      case Some(g) => prefix + [g]
  }

  /** What `scrapeFacets(plpUrl)` returns for a page. */
  function Facets(page: ListingPage): seq<FacetGroup> {
    GroupsOf(page.labels, page.containers)
  }

  /** The loop over a container's inputs. */
  method CollectInputValues(labels: seq<LabelElement>, inputs: seq<Input>) returns (values: seq<FacetValue>)
    ensures values == InputValues(labels, inputs)
  {
    values := [];
    for j := 0 to |inputs|
      invariant values == InputValues(labels, inputs[..j])
    {
      var inp := inputs[j];
      assert inputs[..j + 1][..j] == inputs[..j];
      var text := InputLabel(labels, inp);
      var href := inp.dataHref.GetOr("");
      var qs := QueryFragment(href);
      if text != "" && qs != "" {
        values := values + [FacetValue(text, qs)];
      }
    }
    assert inputs[..|inputs|] == inputs;
  }

  /** The loop over a container's anchors. */
  method CollectAnchorValues(links: seq<Anchor>) returns (values: seq<FacetValue>)
    ensures values == AnchorValues(links)
  {
    values := [];
    for j := 0 to |links|
      invariant values == AnchorValues(links[..j])
    {
      var a := links[j];
      assert links[..j + 1][..j] == links[..j];
      var text := Trim(a.text);
      var href := a.href.GetOr("");
      var qs := QueryFragment(href);
      if text != "" && qs != "" {
        values := values + [FacetValue(text, qs)];
      }
    }
    assert links[..|links|] == links;
  }

  /** `scrapeFacets`: the loop over the candidate containers. */
  method ScrapeFacets(page: ListingPage) returns (groups: seq<FacetGroup>)
    ensures groups == Facets(page)
  {
    var containers := page.containers;
    groups := [];
    for i := 0 to |containers|
      invariant groups == GroupsOf(page.labels, containers[..i])
    {
      var box := containers[i];
      GroupsStep(page.labels, containers, i);
      if box.heading.None? {
        continue;
      }
      var name := Trim(box.heading.value);
      if name == "" || Utf16Length(name) > MaxName {
        continue;
      }
      assert GroupName(box) == Some(name);
      var values: seq<FacetValue> := [];
      if |box.inputs| > 0 {
        values := CollectInputValues(page.labels, box.inputs);
      } else if |box.anchors| > 0 {
        values := CollectAnchorValues(box.anchors);
      }
      assert values == BoxValues(page.labels, box);
      if |values| > 0 {
        var isMulti := HasCheckbox(box.inputs);
        groups := groups + [FacetGroup(name, isMulti, values)];
      }
    }
    assert containers[..|containers|] == containers;
  }

  /** One step of the container loop. */
  lemma GroupsStep(labels: seq<LabelElement>, boxes: seq<Container>, i: nat)
    requires i < |boxes|
    ensures GroupsOf(labels, boxes[..i + 1]) ==
            GroupsOf(labels, boxes[..i]) + match GroupOf(labels, boxes[i]) case None => [] case Some(g) => [g]
  {
    assert boxes[..i + 1][..i] == boxes[..i];
  }

  /**
   * The label fallback: with an `id` whose first `label[for=id]` has text
   * that trims to something, that trimmed text; otherwise the input's own
   * `value` attribute, untrimmed, or `''` without one.
   */
  lemma InputLabelFallback(labels: seq<LabelElement>, inp: Input)
    ensures inp.id.None? || inp.id == Some("") ||
            (forall i :: 0 <= i < |labels| ==> labels[i].forId != inp.id) ==>
              InputLabel(labels, inp) == inp.value.GetOr("")
    ensures forall i :: 0 <= i < |labels| && inp.id.Some? && inp.id != Some("") && labels[i].forId == inp.id &&
                        (forall j :: 0 <= j < i ==> labels[j].forId != inp.id) ==>
              InputLabel(labels, inp) == if Trim(labels[i].text) != "" then Trim(labels[i].text) else inp.value.GetOr("")
  {
    if inp.id.Some? && inp.id.value != "" {
      LabelForFirst(labels, inp.id.value);
    }
  }

  /**
   * The input loop pushes exactly the pairs of an input's label and the
   * query fragment of its `data-href` in which both are non-empty.
   */
  lemma {:induction false} InputValuesMembership(labels: seq<LabelElement>, inputs: seq<Input>, v: FacetValue)
    ensures v in InputValues(labels, inputs) <==>
            v.labelText != "" && v.qs != "" &&
            exists inp :: inp in inputs && v == FacetValue(InputLabel(labels, inp), QueryFragment(inp.dataHref.GetOr("")))
    decreases |inputs|
  {
    if inputs != [] {
      var init := inputs[..|inputs| - 1];
      InputValuesMembership(labels, init, v);
      assert inputs == init + [inputs[|inputs| - 1]];
    }
  }

  /**
   * The anchor loop pushes exactly the pairs of an anchor's trimmed text
   * and the query fragment of its `href` in which both are non-empty.
   */
  lemma {:induction false} AnchorValuesMembership(anchors: seq<Anchor>, v: FacetValue)
    ensures v in AnchorValues(anchors) <==>
            v.labelText != "" && v.qs != "" &&
            exists a :: a in anchors && v == FacetValue(Trim(a.text), QueryFragment(a.href.GetOr("")))
    decreases |anchors|
  {
    if anchors != [] {
      var init := anchors[..|anchors| - 1];
      AnchorValuesMembership(init, v);
      assert anchors == init + [anchors[|anchors| - 1]];
    }
  }

  /**
   * The input loop keeps the inputs' order, one entry per input that yields
   * a value and duplicates included: it distributes over concatenation.
   */
  lemma {:induction false} InputValuesAppend(labels: seq<LabelElement>, a: seq<Input>, b: seq<Input>)
    ensures InputValues(labels, a + b) == InputValues(labels, a) + InputValues(labels, b)
    decreases |b|
  {
    if b == [] {
      assert a + b == a;
    } else {
      var init := b[..|b| - 1];
      InputValuesAppend(labels, a, init);
      assert (a + b)[..|a + b| - 1] == a + init;
      assert (a + b)[|a + b| - 1] == b[|b| - 1];
    }
  }

  /**
   * The anchor loop keeps the anchors' order, one entry per anchor that
   * yields a value and duplicates included: it distributes over
   * concatenation.
   */
  lemma {:induction false} AnchorValuesAppend(a: seq<Anchor>, b: seq<Anchor>)
    ensures AnchorValues(a + b) == AnchorValues(a) + AnchorValues(b)
    decreases |b|
  {
    if b == [] {
      assert a + b == a;
    } else {
      var init := b[..|b| - 1];
      AnchorValuesAppend(a, init);
      assert (a + b)[..|a + b| - 1] == a + init;
      assert (a + b)[|a + b| - 1] == b[|b| - 1];
    }
  }

  /**
   * A single anchor yields one value, its trimmed text with the query
   * fragment of its `href`, when both are non-empty, and none otherwise.
   */
  lemma AnchorValuesSingle(a: Anchor)
    ensures var text := Trim(a.text); var qs := QueryFragment(a.href.GetOr(""));
            AnchorValues([a]) == if text != "" && qs != "" then [FacetValue(text, qs)] else []
  {
    assert [a][..0] == [];
  }

  /**
   * Strategy priority: a container with any checkbox or radio input takes
   * its values from the inputs alone, whatever anchors it has; one without
   * inputs takes them from its anchors.
   */
  lemma StrategyPriority(labels: seq<LabelElement>, box: Container, others: seq<Anchor>)
    ensures |box.inputs| > 0 ==> BoxValues(labels, box) == InputValues(labels, box.inputs)
    ensures |box.inputs| > 0 ==> GroupOf(labels, box.(anchors := others)) == GroupOf(labels, box)
    ensures |box.inputs| == 0 ==> BoxValues(labels, box) == AnchorValues(box.anchors)
  {
  }

  /**
   * A container yields a group exactly when it has a heading whose trimmed
   * text is non-empty and at most 40 UTF-16 code units and its chosen strategy
   * keeps some value; the group is named by that trimmed text and is
   * multi-select exactly when the container holds a checkbox.
   */
  lemma GroupEmission(labels: seq<LabelElement>, box: Container)
    ensures GroupOf(labels, box).Some? <==>
            box.heading.Some? && Trim(box.heading.value) != "" && Utf16Length(Trim(box.heading.value)) <= MaxName &&
            |BoxValues(labels, box)| > 0
    ensures GroupOf(labels, box).Some? ==>
            var g := GroupOf(labels, box).value;
            g.name == Trim(box.heading.value) && g.values == BoxValues(labels, box) &&
            (g.multi <==> exists inp :: inp in box.inputs && inp.kind == Checkbox)
  {
    if GroupOf(labels, box).Some? && GroupOf(labels, box).value.multi {
      var i :| 0 <= i < |box.inputs| && box.inputs[i].kind == Checkbox;
      assert box.inputs[i] in box.inputs;
    }
  }

  /** A group built from anchors, or from radio inputs only, is single-select. */
  lemma SingleSelect(labels: seq<LabelElement>, box: Container)
    requires GroupOf(labels, box).Some?
    requires forall inp :: inp in box.inputs ==> inp.kind == Radio
    ensures !GroupOf(labels, box).value.multi
  {
    forall i | 0 <= i < |box.inputs|
      ensures box.inputs[i].kind == Radio
    {
      assert box.inputs[i] in box.inputs;
    }
  }

  /** Groups come out in container order: the loop distributes over concatenation. */
  lemma {:induction false} GroupsOfAppend(labels: seq<LabelElement>, a: seq<Container>, b: seq<Container>)
    ensures GroupsOf(labels, a + b) == GroupsOf(labels, a) + GroupsOf(labels, b)
    decreases |b|
  {
    if b == [] {
      assert a + b == a;
    } else {
      var init := b[..|b| - 1];
      GroupsOfAppend(labels, a, init);
      assert (a + b)[..|a + b| - 1] == a + init;
      assert (a + b)[|a + b| - 1] == b[|b| - 1];
    }
  }

  /** Every group returned is the group of one of the containers. */
  lemma {:induction false} GroupsOfMembership(labels: seq<LabelElement>, boxes: seq<Container>, g: FacetGroup)
    ensures g in GroupsOf(labels, boxes) <==> exists box :: box in boxes && GroupOf(labels, box) == Some(g)
    decreases |boxes|
  {
    if boxes != [] {
      var init := boxes[..|boxes| - 1];
      GroupsOfMembership(labels, init, g);
      assert boxes == init + [boxes[|boxes| - 1]];
    }
  }

  /**
   * `scrapeFacets` returns exactly the groups of the containers that have a
   * heading whose trimmed text is 1..40 code units long and whose chosen
   * strategy keeps a value: each named by that text, holding those values,
   * and multi-select exactly when its container holds a checkbox.
   */
  lemma FacetsMembership(page: ListingPage, g: FacetGroup)
    ensures g in Facets(page) <==>
            exists box :: box in page.containers && box.heading.Some? &&
              g.name == Trim(box.heading.value) && g.name != "" && Utf16Length(g.name) <= MaxName &&
              g.values == BoxValues(page.labels, box) && |g.values| > 0 &&
              (g.multi <==> exists inp :: inp in box.inputs && inp.kind == Checkbox)
  {
    GroupsOfMembership(page.labels, page.containers, g);
    if g in Facets(page) {
      var box :| box in page.containers && GroupOf(page.labels, box) == Some(g);
      GroupEmission(page.labels, box);
    }
    forall box | box in page.containers && box.heading.Some? &&
                 g.name == Trim(box.heading.value) && g.name != "" && Utf16Length(g.name) <= MaxName &&
                 g.values == BoxValues(page.labels, box) && |g.values| > 0 &&
                 (g.multi <==> exists inp :: inp in box.inputs && inp.kind == Checkbox)
      ensures GroupOf(page.labels, box) == Some(g)
    {
      GroupEmission(page.labels, box);
    }
  }

  /** A group as the scraper promises it: a short trimmed name and at least one complete value. */
  ghost predicate ValidGroup(g: FacetGroup) {
    g.name != "" && Utf16Length(g.name) <= MaxName && Trim(g.name) == g.name && |g.values| > 0 &&
    forall v :: v in g.values ==> v.labelText != "" && v.qs != "" && '?' !in v.qs
  }

  /** Every group a container yields is valid. */
  lemma GroupOfValid(labels: seq<LabelElement>, box: Container)
    requires GroupOf(labels, box).Some?
    ensures ValidGroup(GroupOf(labels, box).value)
  {
    var g := GroupOf(labels, box).value;
    TrimIdempotent(box.heading.value);
    forall v | v in g.values
      ensures v.labelText != "" && v.qs != "" && '?' !in v.qs
    {
      if |box.inputs| > 0 {
        InputValuesMembership(labels, box.inputs, v);
        var inp :| inp in box.inputs && v == FacetValue(InputLabel(labels, inp), QueryFragment(inp.dataHref.GetOr("")));
        QueryFragmentFree(inp.dataHref.GetOr(""));
      } else {
        AnchorValuesMembership(box.anchors, v);
        var a :| a in box.anchors && v == FacetValue(Trim(a.text), QueryFragment(a.href.GetOr("")));
        QueryFragmentFree(a.href.GetOr(""));
      }
    }
  }

  /**
   * Every group `scrapeFacets` returns has a non-empty trimmed name of at
   * most 40 UTF-16 code units and a non-empty list of values, each with a
   * non-empty label and a non-empty, `?`-free query fragment.
   */
  lemma FacetsValid(page: ListingPage)
    ensures forall g :: g in Facets(page) ==> ValidGroup(g)
  {
    forall g | g in Facets(page)
      ensures ValidGroup(g)
    {
      GroupsOfMembership(page.labels, page.containers, g);
      var box :| box in page.containers && GroupOf(page.labels, box) == Some(g);
      GroupOfValid(page.labels, box);
    }
  }

  /**
   * An input named by the first label for its `id`, a label without white
   * space at either end, and whose `data-href` is a `?` followed by a
   * fragment without `?`.
   */
  ghost predicate NamedByLabel(labels: seq<LabelElement>, inp: Input, i: nat) {
    i < |labels| && inp.id.Some? && inp.id != Some("") && labels[i].forId == inp.id &&
    (forall j :: 0 <= j < i ==> labels[j].forId != inp.id) &&
    labels[i].text != [] && !IsSpace(labels[i].text[0]) && !IsSpace(labels[i].text[|labels[i].text| - 1]) &&
    inp.dataHref.Some? && |inp.dataHref.value| > 1 && inp.dataHref.value[0] == '?' &&
    '?' !in inp.dataHref.value[1..]
  }

  /** Such an input yields its label's text and the fragment after the `?`. */
  lemma OptionFromLabel(labels: seq<LabelElement>, inp: Input, i: nat)
    requires NamedByLabel(labels, inp, i)
    ensures InputValue(labels, inp) == Some(FacetValue(labels[i].text, inp.dataHref.value[1..]))
  {
    var h := inp.dataHref.value;
    QueryFragmentBetween(h, 0);
    assert forall j :: 1 <= j < |h| ==> h[j] == h[1..][j - 1];
    assert QueryFragment(h) == h[1..];
    TrimUnchanged(labels[i].text);
    LabelForFirst(labels, inp.id.value);
  }

  /** Three such inputs yield their three values in order. */
  lemma ThreeNamedInputs(labels: seq<LabelElement>, inputs: seq<Input>)
    requires |inputs| == 3
    requires NamedByLabel(labels, inputs[0], 0)
    requires NamedByLabel(labels, inputs[1], 1)
    requires NamedByLabel(labels, inputs[2], 2)
    ensures InputValues(labels, inputs) ==
            [FacetValue(labels[0].text, inputs[0].dataHref.value[1..]),
             FacetValue(labels[1].text, inputs[1].dataHref.value[1..]),
             FacetValue(labels[2].text, inputs[2].dataHref.value[1..])]
  {
    OptionFromLabel(labels, inputs[0], 0);
    OptionFromLabel(labels, inputs[1], 1);
    OptionFromLabel(labels, inputs[2], 2);
    InputValuesOfThree(labels, inputs,
                       FacetValue(labels[0].text, inputs[0].dataHref.value[1..]),
                       FacetValue(labels[1].text, inputs[1].dataHref.value[1..]),
                       FacetValue(labels[2].text, inputs[2].dataHref.value[1..]));
  }

  /** The values of the "Size" example: one per checkbox, in order. */
  lemma SizeExampleValues(labels: seq<LabelElement>, inputs: seq<Input>)
    requires labels == [LabelElement(Some("s"), "S"), LabelElement(Some("m"), "M"), LabelElement(Some("l"), "L")]
    requires inputs == [Input(Some("s"), Checkbox, None, Some("?size=S")),
                        Input(Some("m"), Checkbox, None, Some("?size=M")),
                        Input(Some("l"), Checkbox, None, Some("?size=L"))]
    ensures InputValues(labels, inputs) == [FacetValue("S", "size=S"), FacetValue("M", "size=M"), FacetValue("L", "size=L")]
  {
    assert NamedByLabel(labels, inputs[0], 0);
    assert NamedByLabel(labels, inputs[1], 1);
    assert NamedByLabel(labels, inputs[2], 2);
    ThreeNamedInputs(labels, inputs);
  }

  /** Three inputs that each yield a value yield those values in order. */
  lemma InputValuesOfThree(labels: seq<LabelElement>, inputs: seq<Input>, v0: FacetValue, v1: FacetValue, v2: FacetValue)
    requires |inputs| == 3
    requires InputValue(labels, inputs[0]) == Some(v0)
    requires InputValue(labels, inputs[1]) == Some(v1)
    requires InputValue(labels, inputs[2]) == Some(v2)
    ensures InputValues(labels, inputs) == [v0, v1, v2]
  {
    var p1 := inputs[..1];
    var p2 := inputs[..2];
    assert p1[..0] == [] && p1[0] == inputs[0];
    assert InputValues(labels, p1) == [v0];
    assert p2[..1] == p1 && p2[1] == inputs[1];
    assert InputValues(labels, p2) == [v0] + [v1];
    assert inputs[..2] == p2;
  }

  /** One step of the input loop. */
  lemma InputValuesSnoc(labels: seq<LabelElement>, inputs: seq<Input>, inp: Input)
    ensures InputValues(labels, inputs + [inp]) ==
            InputValues(labels, inputs) + match InputValue(labels, inp) case None => [] case Some(v) => [v]
  {
    assert (inputs + [inp])[..|inputs|] == inputs;
  }

  /**
   * A filter container headed "Size" with three checkboxes labelled S, M
   * and L whose `data-href` is `?size=S` and so on yields one multi-select
   * group with the three values in order.
   */
  lemma SizeExample()
    ensures var labels := [LabelElement(Some("s"), "S"), LabelElement(Some("m"), "M"), LabelElement(Some("l"), "L")];
            var box := Container(Some("Size"), [Input(Some("s"), Checkbox, None, Some("?size=S")),
                                                Input(Some("m"), Checkbox, None, Some("?size=M")),
                                                Input(Some("l"), Checkbox, None, Some("?size=L"))], []);
            Facets(ListingPage([box], labels)) ==
              [FacetGroup("Size", true, [FacetValue("S", "size=S"), FacetValue("M", "size=M"), FacetValue("L", "size=L")])]
  {
    var labels := [LabelElement(Some("s"), "S"), LabelElement(Some("m"), "M"), LabelElement(Some("l"), "L")];
    var inputs := [Input(Some("s"), Checkbox, None, Some("?size=S")),
                   Input(Some("m"), Checkbox, None, Some("?size=M")),
                   Input(Some("l"), Checkbox, None, Some("?size=L"))];
    var box := Container(Some("Size"), inputs, []);
    TrimUnchanged("Size");
    assert GroupName(box) == Some("Size");
    SizeExampleValues(labels, inputs);
    var values := [FacetValue("S", "size=S"), FacetValue("M", "size=M"), FacetValue("L", "size=L")];
    assert BoxValues(labels, box) == values;
    assert HasCheckbox(inputs) by {
      assert inputs[0].kind == Checkbox;
    }
    var group := FacetGroup("Size", true, values);
    assert GroupOf(labels, box) == Some(group);
    assert [box][..0] == [];
    assert GroupsOf(labels, [box]) == [group];
  }
}
