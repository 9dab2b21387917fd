/**
 * The data a `TabSet` render derives from its props (components/TabSet/index.tsx,
 * lines 23-55): the tab-set slug, one derived record per tab, the diagnostics the
 * render would log, and the active tab it shows.
 *
 * The module-level set `tabSetSlugs` (line 15) outlives a render, so it is modelled
 * as a value that every render receives and hands on; the per-render set `tabSlugs`
 * (line 34) starts empty in every render. The component only ever asks both sets
 * whether they hold a slug and never adds one, so both stay empty.
 */
module TabSet {
  import opened Wrappers
  import Slug

  /** One entry of the `tabs` prop. The props interface declares `uniqueName` and
      `content`; callers may also pass an `isActive` hint, which the spread copies. */
  datatype Tab<C> = Tab(uniqueName: string, content: C, isActive: Option<bool>)

  /** The record `{...tab, isActive: true, slug: tabSlug}` built for each tab. */
  datatype TabData<C> = TabData(uniqueName: string, content: C, isActive: bool, slug: string)

  /** The props of one `TabSet`. */
  datatype Props<C> = Props(uniqueName: string, tabs: seq<Tab<C>>)

  /** The two `console.error` diagnostics. */
  datatype Diagnostic =
    | TabSetSlugNotUnique(tabSetSlug: string)
    | TabSlugNotUnique(tabSetSlug: string, tabSlug: string)

  /** Reading `content` of the `undefined` that `find` returns for an empty tab list. */
  datatype RenderError = ActiveTabUndefined

  /** What the markup is built from: the tab-set slug, the derived tabs and the tab
      whose content is shown. */
  datatype View<C> = View(tabSetSlug: string, tabData: seq<TabData<C>>, activeTab: TabData<C>)

  /** The result of one render: what it shows (or the error it throws), what it logs
      before that, and the module-level slug set after it. */
  datatype Render<C> = Render(outcome: Result<View<C>, RenderError>, diagnostics: seq<Diagnostic>, tabSetSlugs: set<string>)

  /** The callback of `tabs.map` (lines 37-52). */
  function DeriveTab<C>(tab: Tab<C>): TabData<C> {
    TabData(tab.uniqueName, tab.content, true, Slug.CreateSlug(tab.uniqueName))
  }

  /** `tabs.map(...)` (lines 36-53): the same tabs, in the same order, each marked
      active and given the slug of its own name; the name and content are copied. */
  function DeriveTabs<C>(tabs: seq<Tab<C>>): (r: seq<TabData<C>>)
    ensures |r| == |tabs|
    ensures forall i :: 0 <= i < |tabs| ==>
              && r[i].uniqueName == tabs[i].uniqueName
              && r[i].content == tabs[i].content
              && r[i].isActive
              && r[i].slug == Slug.CreateSlug(tabs[i].uniqueName)
  {
    if tabs == [] then [] else [DeriveTab(tabs[0])] + DeriveTabs(tabs[1..])
  }

  /** The diagnostics of the tab loop (lines 40-46): one for each tab whose slug is
      already in `tabSlugs`. The loop never adds to `tabSlugs`. */
  function TabDiagnostics<C>(tabSetSlug: string, tabSlugs: set<string>, tabs: seq<Tab<C>>): (d: seq<Diagnostic>)
    ensures |d| <= |tabs|
    ensures forall k :: 0 <= k < |d| ==> d[k].TabSlugNotUnique? && d[k].tabSetSlug == tabSetSlug && d[k].tabSlug in tabSlugs
  {
    if tabs == [] then []
    else
      var tabSlug := Slug.CreateSlug(tabs[0].uniqueName);
      (if tabSlug in tabSlugs then [TabSlugNotUnique(tabSetSlug, tabSlug)] else [])
      + TabDiagnostics(tabSetSlug, tabSlugs, tabs[1..])
  }

  /** `tabData.find((t) => t.isActive)` (line 55), as an index: the first active entry,
      or none when no entry is active. */
  function FindActive<C>(tabData: seq<TabData<C>>): (r: Option<nat>)
    ensures r.Some? ==> r.value < |tabData| && tabData[r.value].isActive
                        && forall j :: 0 <= j < r.value ==> !tabData[j].isActive
    ensures r.None? ==> forall j :: 0 <= j < |tabData| ==> !tabData[j].isActive
  {
    if tabData == [] then None
    else if tabData[0].isActive then Some(0)
    else match FindActive(tabData[1..]) {
      case None => None
      case Some(i) => Some(i + 1)
    }
  }

  /** One render of `TabSet` (lines 23-69) against the module-level set `tabSetSlugs`. */
  function RenderTabSet<C>(tabSetSlugs: set<string>, props: Props<C>): (r: Render<C>)
    ensures r.tabSetSlugs == tabSetSlugs
    ensures r.outcome.Success? <==> |props.tabs| > 0
    ensures r.outcome.Success? ==>
              && r.outcome.value.tabSetSlug == Slug.CreateSlug(props.uniqueName)
              && r.outcome.value.tabData == DeriveTabs(props.tabs)
              && r.outcome.value.activeTab == DeriveTab(props.tabs[0])
  {
    var tabSetSlug := Slug.CreateSlug(props.uniqueName);
    var setDiagnostics := if tabSetSlug in tabSetSlugs then [TabSetSlugNotUnique(tabSetSlug)] else [];
    var tabSlugs: set<string> := {};
    var tabData := DeriveTabs(props.tabs);
    var diagnostics := setDiagnostics + TabDiagnostics(tabSetSlug, tabSlugs, props.tabs);
    match FindActive(tabData) {
      case None => Render(Failure(ActiveTabUndefined), diagnostics, tabSetSlugs)
      case Some(i) => Render(Success(View(tabSetSlug, tabData, tabData[i])), diagnostics, tabSetSlugs)
    }
  }

  /** A page that renders several tab sets in turn, all against the one module-level set. */
  function RenderPage<C>(tabSetSlugs: set<string>, page: seq<Props<C>>): (r: seq<Render<C>>)
    ensures |r| == |page|
  {
    if page == [] then []
    else
      var first := RenderTabSet(tabSetSlugs, page[0]);
      [first] + RenderPage(first.tabSetSlugs, page[1..])
  }

  // ----- properties -----

  /** The active tab is the first one: every derived entry is active, so `find`
      stops at index 0; with no tabs there is none. */
  lemma ActiveTabIsFirst<C>(tabs: seq<Tab<C>>)
    ensures FindActive(DeriveTabs(tabs)) == if tabs == [] then None else Some(0)
  {
  }

  /** The `isActive` hint of the input is ignored: tabs that differ only in their
      hints derive the same records. */
  lemma {:induction false} HintIgnored<C>(tabs: seq<Tab<C>>, other: seq<Tab<C>>)
    requires |tabs| == |other|
    requires forall i :: 0 <= i < |tabs| ==> tabs[i].uniqueName == other[i].uniqueName && tabs[i].content == other[i].content
    ensures DeriveTabs(tabs) == DeriveTabs(other)
  {
    if tabs != [] {
      HintIgnored(tabs[1..], other[1..]);
    }
  }

  /** The derivation works entry by entry: deriving a concatenation concatenates the
      derivations, so a tab's record does not depend on the tabs before it. */
  lemma {:induction false} DeriveTabsConcat<C>(a: seq<Tab<C>>, b: seq<Tab<C>>)
    ensures DeriveTabs(a + b) == DeriveTabs(a) + DeriveTabs(b)
  {
    if a == [] {
      assert a + b == b;
    } else {
      assert (a + b)[1..] == a[1..] + b;
      DeriveTabsConcat(a[1..], b);
    }
  }

  /** No suffix is appended: tabs with equal names get equal slugs. */
  lemma DuplicateNamesShareSlug<C>(tabs: seq<Tab<C>>, i: nat, j: nat)
    requires i < |tabs| && j < |tabs| && tabs[i].uniqueName == tabs[j].uniqueName
    ensures DeriveTabs(tabs)[i].slug == DeriveTabs(tabs)[j].slug
  {
  }

  /** Against an empty `tabSlugs`, the tab loop logs nothing, whatever the names. */
  lemma NoTabDiagnostics<C>(tabSetSlug: string, tabs: seq<Tab<C>>)
    ensures TabDiagnostics(tabSetSlug, {}, tabs) == []
  {
  }

  /** A render logs a tab-set diagnostic exactly when the module-level set holds the
      slug already, and never a tab diagnostic. */
  lemma RenderDiagnostics<C>(tabSetSlugs: set<string>, props: Props<C>)
    ensures RenderTabSet(tabSetSlugs, props).diagnostics
            == if Slug.CreateSlug(props.uniqueName) in tabSetSlugs
               then [TabSetSlugNotUnique(Slug.CreateSlug(props.uniqueName))] else []
  {
    NoTabDiagnostics(Slug.CreateSlug(props.uniqueName), props.tabs);
  }

  /** The module-level set starts empty and no render adds to it, so across any
      sequence of renders it stays empty and the duplicate diagnostics never fire. */
  lemma {:induction false} PageNeverWarns<C>(page: seq<Props<C>>)
    ensures forall k :: 0 <= k < |page| ==>
              RenderPage({}, page)[k].diagnostics == [] && RenderPage({}, page)[k].tabSetSlugs == {}
  {
    if page != [] {
      var first := RenderTabSet({}, page[0]);
      var rest := RenderPage({}, page[1..]);
      assert RenderPage({}, page) == [first] + rest;
      RenderDiagnostics({}, page[0]);
      PageNeverWarns(page[1..]);
      forall k | 1 <= k < |page|
        ensures RenderPage({}, page)[k].diagnostics == [] && RenderPage({}, page)[k].tabSetSlugs == {}
      {
        assert RenderPage({}, page)[k] == rest[k - 1];
      }
    }
  }

  /** Every render of a page is the render of its own props against the module-level
      set the page started with, since no render changes that set. */
  lemma {:induction false} RenderPageRenders<C>(tabSetSlugs: set<string>, page: seq<Props<C>>)
    ensures forall k :: 0 <= k < |page| ==> RenderPage(tabSetSlugs, page)[k] == RenderTabSet(tabSetSlugs, page[k])
  {
    if page != [] {
      var rest := RenderPage(tabSetSlugs, page[1..]);
      assert RenderPage(tabSetSlugs, page) == [RenderTabSet(tabSetSlugs, page[0])] + rest;
      RenderPageRenders(tabSetSlugs, page[1..]);
      forall k | 1 <= k < |page|
        ensures RenderPage(tabSetSlugs, page)[k] == RenderTabSet(tabSetSlugs, page[k])
      {
        assert RenderPage(tabSetSlugs, page)[k] == rest[k - 1];
        assert page[1..][k - 1] == page[k];
      }
    }
  }

  /** The tab loop would log a tab whose slug is already in `tabSlugs`. */
  lemma {:induction false} TabDiagnosticsWarns<C>(tabSetSlug: string, tabSlugs: set<string>, tabs: seq<Tab<C>>, i: nat)
    requires i < |tabs| && Slug.CreateSlug(tabs[i].uniqueName) in tabSlugs
    ensures TabSlugNotUnique(tabSetSlug, Slug.CreateSlug(tabs[i].uniqueName)) in TabDiagnostics(tabSetSlug, tabSlugs, tabs)
  {
    if i > 0 {
      assert tabs[1..][i - 1] == tabs[i];
      TabDiagnosticsWarns(tabSetSlug, tabSlugs, tabs[1..], i - 1);
    }
  }
}
