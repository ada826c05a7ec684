/** The project filter. A click on a filter button makes it the only selected button
    and targets every project item as shown or hidden. The fade transitions (opacity,
    offset, the next-frame fade-in) are abstracted into the item's target visibility.
    The 300 ms timer that sets `display: none` on a hidden item is kept: each click that
    hides an item arms one, nothing cancels it, and its firing is the `HideFires` event. */
module ProjectFilter {
  import opened JsText

  /** A filter button: its `data-filter` (None when the attribute is missing), whether
      it has the `active` class, and its `aria-selected` value. */
  datatype FilterButton = FilterButton(filter: Option<string>, active: bool, ariaSelected: string)

  datatype Visibility = Shown | Hidden

  /** A project item: its `data-category` (None when missing), its target visibility,
      whether it is displayed (`display` is not `none`), and how many armed 300 ms hide
      timers have not fired yet. */
  datatype ProjectItem = ProjectItem(category: Option<string>, visibility: Visibility,
                                     displayed: bool, pendingHides: nat)

  /** The filter bar and the project grid. */
  datatype Gallery = Gallery(buttons: seq<FilterButton>, items: seq<ProjectItem>)

  /** `filter === 'all' || category === filter`; two missing attributes are both
      `undefined`, so they match. */
  predicate Selects(filter: Option<string>, category: Option<string>) {
    filter == Some("all") || category == filter
  }

  /** Exactly the button at `clicked` is active, and every button's `aria-selected`
      mirrors its `active` class. */
  ghost predicate SelectedOnly(buttons: seq<FilterButton>, clicked: int) {
    && (forall i | 0 <= i < |buttons| :: buttons[i].active <==> i == clicked)
    && (forall i | 0 <= i < |buttons| ::
          buttons[i].ariaSelected == (if buttons[i].active then "true" else "false"))
  }

  /** Clears `active`/`aria-selected` on every button, then sets them on the clicked one. */
  function SelectButton(buttons: seq<FilterButton>, clicked: nat): (r: seq<FilterButton>)
    requires clicked < |buttons|
    ensures |r| == |buttons|
    ensures forall i | 0 <= i < |r| :: r[i].filter == buttons[i].filter
    ensures SelectedOnly(r, clicked)
  {
    seq(|buttons|, i requires 0 <= i < |buttons| =>
      buttons[i].(active := i == clicked, ariaSelected := if i == clicked then "true" else "false"))
  }

  /** Targets each item shown iff the filter selects its category. A selected item is
      displayed at once; any other item keeps its display and gains one armed hide
      timer. Timers armed earlier stay armed either way. */
  function ApplyFilter(items: seq<ProjectItem>, filter: Option<string>): (r: seq<ProjectItem>)
    ensures |r| == |items|
    ensures forall i | 0 <= i < |r| :: r[i].category == items[i].category
    ensures forall i | 0 <= i < |r| :: r[i].visibility == Shown <==> Selects(filter, items[i].category)
    ensures forall i | 0 <= i < |r| && Selects(filter, items[i].category) ::
              r[i].displayed && r[i].pendingHides == items[i].pendingHides
    ensures forall i | 0 <= i < |r| && !Selects(filter, items[i].category) ::
              r[i].displayed == items[i].displayed && r[i].pendingHides == items[i].pendingHides + 1
  {
    seq(|items|, i requires 0 <= i < |items| =>
      if Selects(filter, items[i].category) then
        items[i].(visibility := Shown, displayed := true)
      else
        items[i].(visibility := Hidden, pendingHides := items[i].pendingHides + 1))
  }

  /** A click on the button at `clicked`: that button alone is selected, and exactly the
      items its filter selects are targeted shown. Filters and categories are kept. */
  function Click(g: Gallery, clicked: nat): (r: Gallery)
    requires clicked < |g.buttons|
    ensures |r.buttons| == |g.buttons| && |r.items| == |g.items|
    ensures forall i | 0 <= i < |r.buttons| :: r.buttons[i].filter == g.buttons[i].filter
    ensures forall i | 0 <= i < |r.items| :: r.items[i].category == g.items[i].category
    ensures SelectedOnly(r.buttons, clicked)
    ensures forall i | 0 <= i < |r.items| ::
              r.items[i].visibility == Shown <==> Selects(g.buttons[clicked].filter, g.items[i].category)
    ensures forall i | 0 <= i < |r.items| && r.items[i].visibility == Shown :: r.items[i].displayed
  {
    Gallery(SelectButton(g.buttons, clicked), ApplyFilter(g.items, g.buttons[clicked].filter))
  }

  /** One armed hide timer of the item at `index` fires: the item gets `display: none`,
      whatever its current target visibility, and nothing else changes. */
  function HideFires(g: Gallery, index: nat): (r: Gallery)
    requires index < |g.items| && g.items[index].pendingHides > 0
    ensures r.buttons == g.buttons && |r.items| == |g.items|
    ensures !r.items[index].displayed
    ensures r.items[index] == g.items[index].(displayed := false,
                                              pendingHides := g.items[index].pendingHides - 1)
    ensures forall i | 0 <= i < |g.items| && i != index :: r.items[i] == g.items[i]
  {
    var it := g.items[index];
    g.(items := g.items[index := it.(displayed := false, pendingHides := it.pendingHides - 1)])
  }

  /** Selection and target visibility after a click do not depend on earlier clicks:
      the last click decides them, and clicking the same button twice is the same as
      clicking it once. */
  lemma LastClickWins(g: Gallery, first: nat, second: nat)
    requires first < |g.buttons| && second < |g.buttons|
    ensures Click(Click(g, first), second).buttons == Click(g, second).buttons
    ensures forall i | 0 <= i < |g.items| ::
              Click(Click(g, first), second).items[i].visibility == Click(g, second).items[i].visibility
  {
  }

  /** The display itself can disagree with the last click. An item of category
      "mobile" is hidden by "web", which arms a hide timer; "all" then shows it again,
      but the earlier timer still fires and leaves it undisplayed while targeted shown. */
  lemma StaleHideRace()
    ensures var g := Gallery([FilterButton(Some("web"), false, "false"),
                              FilterButton(Some("all"), true, "true")],
                             [ProjectItem(Some("mobile"), Shown, true, 0)]);
            var shown := Click(Click(g, 0), 1);
            && shown.items[0].visibility == Shown && shown.items[0].displayed
            && shown.items[0].pendingHides == 1
            && var after := HideFires(shown, 0);
               after.items[0].visibility == Shown && !after.items[0].displayed
  {
  }

  /** The "all" filter shows every item; any other filter hides the items of every other
      category. */
  lemma FilterAllShowsEverything(g: Gallery, clicked: nat)
    requires clicked < |g.buttons|
    ensures g.buttons[clicked].filter == Some("all") ==>
              forall i | 0 <= i < |g.items| :: Click(g, clicked).items[i].visibility == Shown
    ensures g.buttons[clicked].filter != Some("all") ==>
              forall i | 0 <= i < |g.items| ::
                Click(g, clicked).items[i].visibility == Shown <==>
                  g.items[i].category == g.buttons[clicked].filter
  {
  }
}
