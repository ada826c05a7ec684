/** Active-link tracking: the scroll handler picks the section under the line 150 px
    below the top of the viewport and highlights the navigation links that point at it.
    Offsets are whole pixels. */
module ActiveNav {
  import opened JsText

  /** A `section[id]`: its id and its `offsetTop`/`offsetHeight`. */
  datatype Section = Section(id: string, top: int, height: int)

  /** A `.nav-link`: its `href` attribute (None when missing) and whether it carries
      the highlight class. */
  datatype NavLink = NavLink(href: Option<string>, highlighted: bool)

  /** How far below the top of the viewport the tracked line sits. */
  const LineOffset: int := 150

  /** The section's vertical span `[top, top + height)` holds `pos`. */
  predicate Spans(s: Section, pos: int) {
    s.top <= pos < s.top + s.height
  }

  /** Index `k` is the last section that spans `pos`. */
  ghost predicate IsLastSpanning(sections: seq<Section>, pos: int, k: int) {
    && 0 <= k < |sections| && Spans(sections[k], pos)
    && forall j | k < j < |sections| :: !Spans(sections[j], pos)
  }

  /** Reference choice, searching from the end: the id of the last section spanning
      `pos`, or "" when none does. */
  function LastSpanning(sections: seq<Section>, pos: int): (id: string)
    ensures (forall j | 0 <= j < |sections| :: !Spans(sections[j], pos)) ==> id == ""
    ensures (exists j | 0 <= j < |sections| :: Spans(sections[j], pos)) ==>
              exists k :: IsLastSpanning(sections, pos, k) && id == sections[k].id
  {
    if sections == [] then ""
    else
      var n := |sections| - 1;
      if Spans(sections[n], pos) then
        assert IsLastSpanning(sections, pos, n);
        sections[n].id
      else
        var id := LastSpanning(sections[..n], pos);
        assert (exists j | 0 <= j < |sections| :: Spans(sections[j], pos)) ==>
                 exists k :: IsLastSpanning(sections, pos, k) && id == sections[k].id by {
          if exists j | 0 <= j < |sections| :: Spans(sections[j], pos) {
            var j :| 0 <= j < |sections| && Spans(sections[j], pos);
            assert sections[..n][j] == sections[j];
            var k :| IsLastSpanning(sections[..n], pos, k) && id == sections[..n][k].id;
            assert IsLastSpanning(sections, pos, k);
          }
        }
        id
  }

  /** The throttled handler's body, `updateActiveLink`. The section loop overwrites
      `current` on every match, as the source's `forEach` does, so it ends with the last
      spanning section; the link loop then highlights exactly the links whose `href` is
      `#` followed by that id and clears every other one. */
  method UpdateActiveLink(sections: seq<Section>, links: seq<NavLink>, scrollY: int)
    returns (current: string, updated: seq<NavLink>)
    ensures current == LastSpanning(sections, scrollY + LineOffset)
    ensures |updated| == |links|
    ensures forall i | 0 <= i < |links| :: updated[i].href == links[i].href
    ensures forall i | 0 <= i < |links| ::
              updated[i].highlighted <==> links[i].href == Some("#" + current)
  {
    var pos := scrollY + LineOffset;
    current := "";
    var i := 0;
    while i < |sections|
      invariant 0 <= i <= |sections|
      invariant current == LastSpanning(sections[..i], pos)
    {
      if Spans(sections[i], pos) {
        current := sections[i].id;
      }
      assert sections[..i + 1][..i] == sections[..i];
      i := i + 1;
    }
    assert sections[..|sections|] == sections;
    updated := [];
    var k := 0;
    while k < |links|
      invariant 0 <= k <= |links|
      invariant |updated| == k
      invariant forall j | 0 <= j < k :: updated[j].href == links[j].href
      invariant forall j | 0 <= j < k ::
                  updated[j].highlighted <==> links[j].href == Some("#" + current)
    {
      var link := links[k].(highlighted := false);
      if links[k].href == Some("#" + current) {
        link := link.(highlighted := true);
      }
      updated := updated + [link];
      k := k + 1;
    }
  }

  /** Sections "intro" at [0, 300) and "about" at [300, 800): scrolled to 200, the line
      is at 350 and "about" is current. */
  lemma ActiveSectionExample()
    ensures LastSpanning([Section("intro", 0, 300), Section("about", 300, 500)], 200 + LineOffset)
            == "about"
  {
  }

  /** Where spans overlap, the later section wins. */
  lemma OverlapKeepsLast()
    ensures LastSpanning([Section("a", 0, 500), Section("b", 300, 500)], 350) == "b"
  {
  }
}
