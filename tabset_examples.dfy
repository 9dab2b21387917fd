/**
 * Worked inputs of the `TabSet` render: the props of the component's test and the
 * first tab set of the demo page. Names are written as the concatenation of their
 * words and separators, as in the module `SlugExamples`.
 */
module TabSetExamples {
  import opened Wrappers
  import opened TabSet
  import Slug
  import SlugExamples

  /** A single word is its own slug. */
  lemma WordSlug(w: string)
    requires SlugExamples.IsWord(w)
    ensures Slug.CreateSlug(w) == w
  {
    Slug.CreateSlugFixedPoints(w);
  }

  /** The first props of the component's test (components/TabSet/index.test.tsx,
      lines 9-26); the tab-set name is " Lorem !@#$ ipsum !! ". */
  function TestProps(): Props<string> {
    Props(" " + "Lorem" + " !@#$ " + "ipsum" + " !!" + " ", [
      Tab("One", "Dolor sit amet", None),
      Tab("Two", "Nobis a repellendus", Some(true)),
      Tab("Three", "Culpa hendrerit fugiat", None)])
  }

  /** Tabs whose names are single words keep their names as their slugs. */
  lemma WordTabs<C>(tabs: seq<Tab<C>>)
    requires forall i :: 0 <= i < |tabs| ==> SlugExamples.IsWord(tabs[i].uniqueName)
    ensures forall i :: 0 <= i < |tabs| ==>
              DeriveTabs(tabs)[i] == TabData(tabs[i].uniqueName, tabs[i].content, true, tabs[i].uniqueName)
  {
    forall i | 0 <= i < |tabs|
      ensures DeriveTabs(tabs)[i] == TabData(tabs[i].uniqueName, tabs[i].content, true, tabs[i].uniqueName)
    {
      WordSlug(tabs[i].uniqueName);
    }
  }

  /** The tabs of the test's props, derived: every one is active and keeps its name
      as its slug. */
  lemma TestPropsTabs(tabs: seq<Tab<string>>)
    requires tabs == TestProps().tabs
    ensures DeriveTabs(tabs) == [
              TabData("One", "Dolor sit amet", true, "One"),
              TabData("Two", "Nobis a repellendus", true, "Two"),
              TabData("Three", "Culpa hendrerit fugiat", true, "Three")]
  {
    TestTabNames();
    assert forall i :: 0 <= i < |tabs| ==> SlugExamples.IsWord(tabs[i].uniqueName);
    WordTabs(tabs);
  }

  lemma TestTabNames()
    ensures SlugExamples.IsWord("One") && SlugExamples.IsWord("Two") && SlugExamples.IsWord("Three")
  {
  }

  /** Rendering the test's props: the tab-set slug keeps its case and its trailing
      hyphen, the `isActive` hint on "Two" is ignored, the shown tab is "One", and
      nothing is logged. */
  lemma TestPropsExample()
    ensures RenderTabSet({}, TestProps()) == Render(Success(View("Lorem" + "-" + "ipsum" + "-", [
              TabData("One", "Dolor sit amet", true, "One"),
              TabData("Two", "Nobis a repellendus", true, "Two"),
              TabData("Three", "Culpa hendrerit fugiat", true, "Three")],
              TabData("One", "Dolor sit amet", true, "One"))), [], {})
  {
    SlugExamples.LoremIpsumExample();
    TestPropsTabs(TestProps().tabs);
    RenderDiagnostics({}, TestProps());
  }

  /** The first tab set of the demo page (pages/index.tsx, lines 22-40): the set
      "my first tabset" with the tabs "tab one", "tab two" and "tab one" again, all
      three showing the same `paragraphs`. */
  function DemoProps(): Props<string> {
    Props("my" + " " + "first" + " " + "tabset", [
      Tab("tab" + " " + "one", "paragraphs", None),
      Tab("tab" + " " + "two", "paragraphs", None),
      Tab("tab" + " " + "one", "paragraphs", None)])
  }

  /** Rendering the demo's first tab set: the repeated "tab one" gets the same slug
      twice, and nothing is logged. */
  lemma DemoPageExample()
    ensures
      var r := RenderTabSet({}, DemoProps());
      && r.diagnostics == []
      && r.outcome.Success?
      && r.outcome.value.tabSetSlug == "my" + "-" + "first" + "-" + "tabset"
      && [r.outcome.value.tabData[0].slug, r.outcome.value.tabData[1].slug, r.outcome.value.tabData[2].slug]
         == ["tab" + "-" + "one", "tab" + "-" + "two", "tab" + "-" + "one"]
  {
    SlugExamples.ThreeWordSlug("my", " ", "first", " ", "tabset");
    SlugExamples.TwoWordSlug("tab", " ", "one");
    SlugExamples.TwoWordSlug("tab", " ", "two");
    RenderDiagnostics({}, DemoProps());
  }
}
