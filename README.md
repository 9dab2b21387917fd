# accessible-tabs: the TabSet derivation in Dafny

The repository is a small Next.js site whose one real component, `TabSet`
(`components/TabSet/index.tsx`), takes a tab-set name and a list of tabs and
renders a row of tab buttons and the content of the active tab. Before it
renders anything it derives data from its props; that derivation is what this
project models and proves things about:

- `createSlug` (line 13): trim the name with JavaScript's `String.prototype.trim`,
  then replace every maximal run of characters other than ASCII letters and the
  digits `1`, `2`, `3` by a single hyphen. Nothing is lower-cased, hyphens at the
  ends are kept, and the regular expression's `i` flag changes nothing: without the
  `u` flag, case-insensitive matching never maps a character outside ASCII to an
  ASCII one, so characters such as U+017F (long s) and U+212A (Kelvin sign) stay
  outside the class, and the class already holds both cases of every ASCII letter.
- the tab-set slug and the "not unique" diagnostics (lines 24-46): the component
  asks a module-level set (line 15) and a per-render set (line 34) whether they
  already hold a slug, but never adds a slug to either, so neither diagnostic can
  ever be logged;
- the derived tab records (lines 36-53): every tab is copied, marked active and
  given the slug of its own name; equal names give equal slugs;
- the active tab (line 55): the first derived record that is active, which is
  always the first one; with no tabs it is `undefined` and reading its `content`
  (line 66) throws.

Modules:

- `Wrappers` (`wrappers.dfy`): `Option` and `Result`.
- `Slug` (`slug.dfy`): JavaScript whitespace, `TrimStart`/`TrimEnd`/`Trim`,
  `ReplaceRuns` (the `replace` call), `CreateSlug`, and two independent reference
  definitions used to state what the slug is: `Allowed` (the kept characters in
  order) and `CollapseFrom` (a one-pass left-to-right reading of the regular
  expression); `RunsFrom` counts the runs of disallowed characters.
- `SlugExamples` (`slug_examples.dfy`): the slug of names built from words and
  separators, and worked inputs.
- `TabSet` (`tabset.dfy`): the props, the derived records, the diagnostics, the
  render as a value `Render(outcome, diagnostics, tabSetSlugs)` in which a thrown
  error is `Failure(ActiveTabUndefined)`, and a page that renders several tab sets
  one after another against the same module-level set.
- `TabSetExamples` (`tabset_examples.dfy`): the props of the component's test
  file and the first tab set of the demo page.

The component is a pure function of its props plus the module-level set, so the
model is made of datatypes, functions and lemmas. The module-level set is passed
in and handed back by each render, which makes "the set never grows" something
the model can state.

Where the project's design documentation and the code disagree, the model
follows the code: the documentation describes lower-casing, trimming of
leading and trailing hyphens, `-2`/`-3` suffixes for repeated slugs, element ids,
ARIA attributes, honouring a caller's `isActive`, and syncing the selection with
the URL, scrolling and focus; none of it is in `components/TabSet/index.tsx`. The
test file also imports a `TabSetProps` export that the component does not have,
and expects the tab marked `isActive` to be shown, which the code does not do.

## Model

| member | source | states |
|---|---|---|
| Slug.IsAllowed | components/TabSet/index.tsx:13 | the character class `[a-zA-Z1-3]` under the `i` flag: ASCII letters and the digits 1, 2, 3; its relation to whitespace is stated by `WhitespaceIsDisallowed` |
| Slug.IsJsWhitespace | components/TabSet/index.tsx:13 | the characters `trim` removes: the ECMAScript WhiteSpace and LineTerminator characters; `WhitespaceIsDisallowed` shows none of them can appear in a slug |
| Slug.TrimStart | components/TabSet/index.tsx:13 | the leading-whitespace half of `trim`: by `TrimStartSpec`, the suffix of the input left after its maximal whitespace prefix |
| Slug.TrimEnd | components/TabSet/index.tsx:13 | the trailing-whitespace half of `trim`: by `TrimEndSpec`, the prefix of the input left after its maximal whitespace suffix |
| Slug.Trim | components/TabSet/index.tsx:13 | `str.trim()`: by `TrimIsSlice`, the slice of the input framed by whitespace whose ends are not whitespace; `TrimKeepsAllowed` shows it drops no allowed character |
| Slug.SkipRun | components/TabSet/index.tsx:13 | the greedy `+` of the pattern: never longer than its input; by `SkipRunSpec`, what is left after the maximal leading run of disallowed characters |
| Slug.ReplaceRuns | components/TabSet/index.tsx:13 | the call `.replace(/[^a-zA-Z1-3]+/gi, "-")`: equal to the one-pass reading `CollapseFrom(true, s)` by `CollapseMatches`; its alphabet, kept characters, hyphen count and fixed points by the `ReplaceRuns…` lemmas |
| Slug.CreateSlug | components/TabSet/index.tsx:13 | `createSlug`: the replacement applied to the trimmed name; its properties are stated by the `CreateSlug…` lemmas (alphabet and length, kept characters, no adjacent hyphens, hyphen count, fixed points, idempotence, emptiness) |
| Slug.WhitespaceIsDisallowed | components/TabSet/index.tsx:13 | every character `trim` removes is also one the replacement would replace, so trimming never removes a character the slug could keep |
| Slug.TrimStartSpec | components/TabSet/index.tsx:13 | trimming the front leaves a suffix of the input; everything removed is whitespace and the result does not start with whitespace |
| Slug.TrimEndSpec | components/TabSet/index.tsx:13 | trimming the back leaves a prefix of the input; everything removed is whitespace and the result does not end with whitespace |
| Slug.TrimIsSlice | components/TabSet/index.tsx:13 | `trim` returns a contiguous slice of the input, framed by whitespace only, that neither starts nor ends with whitespace |
| Slug.TrimNoWhitespace | components/TabSet/index.tsx:13 | a string with no whitespace at all is its own trim |
| Slug.TrimKeepsAllowed | components/TabSet/index.tsx:13 | trimming removes none of the letters and digits 1-3 of the input, in order |
| Slug.SkipRunSpec | components/TabSet/index.tsx:13 | the regular expression's greedy `+` consumes exactly the leading run of disallowed characters and stops at an allowed one |
| Slug.ReplaceRunsAlphabet | components/TabSet/index.tsx:13 | the replacement never lengthens the string and yields only letters, digits 1-3 and hyphens |
| Slug.ReplaceRunsKeepsAllowed | components/TabSet/index.tsx:13 | the replacement keeps every allowed character, in order, and adds no other |
| Slug.ReplaceRunsHead | components/TabSet/index.tsx:13 | a string that starts with an allowed character keeps it as the first character |
| Slug.ReplaceRunsNoAdjacentHyphens | components/TabSet/index.tsx:13 | in the replacement's output every hyphen is followed by an allowed character or ends the string, so no two hyphens are adjacent |
| Slug.CollapseMatches | components/TabSet/index.tsx:13 | the replacement equals the one-pass reference reading: allowed characters are copied and the first character of each disallowed run becomes a hyphen |
| Slug.CollapseCountsRuns | components/TabSet/index.tsx:13 | the reference reading emits one hyphen per run of disallowed characters |
| Slug.ReplaceRunsCountsRuns | components/TabSet/index.tsx:13 | the replacement's output has exactly as many hyphens as its input has maximal runs of disallowed characters |
| Slug.ReplaceRunsFixedPoints | components/TabSet/index.tsx:13 | the replacement leaves a string unchanged if and only if it already consists of allowed characters and single hyphens |
| Slug.ReplaceRunsEmpty | components/TabSet/index.tsx:13 | the replacement is empty if and only if its input is |
| Slug.CreateSlugAlphabet | components/TabSet/index.tsx:13 | a slug is no longer than the trimmed name, which is no longer than the name, and holds only letters, digits 1-3 and hyphens |
| Slug.CreateSlugKeepsAllowed | components/TabSet/index.tsx:13 | a slug keeps every letter and digit 1-3 of the name, in order and in their original case |
| Slug.CreateSlugNoAdjacentHyphens | components/TabSet/index.tsx:13 | a slug never holds two adjacent hyphens |
| Slug.CreateSlugCountsRuns | components/TabSet/index.tsx:13 | a slug has one hyphen per run of disallowed characters in the trimmed name, leading and trailing runs included |
| Slug.CreateSlugFixedPoints | components/TabSet/index.tsx:13 | a name is its own slug if and only if it consists of allowed characters and single hyphens |
| Slug.CreateSlugIdempotent | components/TabSet/index.tsx:13 | slugging a slug changes nothing |
| Slug.CreateSlugEmpty | components/TabSet/index.tsx:13 | a slug is empty if and only if the name is empty or all whitespace |
| Slug.ReplaceRunsWord | components/TabSet/index.tsx:13 | a leading run of allowed characters passes through the replacement unchanged |
| Slug.SkipRunOver | components/TabSet/index.tsx:13 | a run of disallowed characters is consumed up to the allowed character after it |
| Slug.ReplaceRunsRun | components/TabSet/index.tsx:13 | a leading run of disallowed characters becomes exactly one hyphen |
| SlugExamples.TrimPadded | components/TabSet/index.tsx:13 | one space of padding on each side of a string that has no whitespace at its ends is trimmed away |
| SlugExamples.WordRunWord | components/TabSet/index.tsx:13 | two words joined by any separator are joined by one hyphen |
| SlugExamples.ThreeWords | components/TabSet/index.tsx:13 | three words joined by any separators are joined by hyphens |
| SlugExamples.TwoWordSlug | components/TabSet/index.tsx:13 | the slug of two words and a separator |
| SlugExamples.ThreeWordSlug | components/TabSet/index.tsx:13 | the slug of three words and two separators |
| SlugExamples.PaddedTwoWordSlug | components/TabSet/index.tsx:13 | padding is trimmed but a separator at the end of the trimmed name becomes a trailing hyphen |
| SlugExamples.LeadingRunSlug | components/TabSet/index.tsx:13 | a separator at the start of the trimmed name becomes a leading hyphen |
| SlugExamples.LoremIpsumExample | components/TabSet/index.test.tsx:10 | " Lorem !@#$ ipsum !! " has the slug "Lorem-ipsum-" |
| SlugExamples.DigitsExample | components/TabSet/index.tsx:13 | "Area 51" has the slug "Area-1": the digit 5 is a separator |
| SlugExamples.LeadingHyphenExample | components/TabSet/index.tsx:13 | "(draft) tab--one" has the slug "-draft-tab-one" |
| TabSet.DeriveTab | components/TabSet/index.tsx:37-52 | the `map` callback `{...tab, isActive: true, slug}`: the tab's name and content, marked active, slugged; stated element by element in the contract of `DeriveTabs` |
| TabSet.DeriveTabs | components/TabSet/index.tsx:36-53 | one record per tab, in order, with the tab's name and content, marked active, whose slug is the slug of the tab's own name |
| TabSet.TabDiagnostics | components/TabSet/index.tsx:34-46 | the tab loop logs at most one diagnostic per tab, each naming the tab set and a slug already in `tabSlugs` |
| TabSet.FindActive | components/TabSet/index.tsx:55 | `find` returns the first active record, or nothing when no record is active |
| TabSet.RenderTabSet | components/TabSet/index.tsx:23-66 | a render leaves the module-level set as it was; it succeeds exactly when there is at least one tab, and then shows the slug of the name, the derived records and the first tab's record; with no tabs it fails with `ActiveTabUndefined` |
| TabSet.RenderPage | components/TabSet/index.tsx:15 | a page of tab sets yields one render per tab set; what each render is, is stated by `RenderPageRenders` |
| TabSet.RenderPageRenders | components/TabSet/index.tsx:15-55 | every render of a page equals the render of its own props against the set the page started with, because no render changes that set |
| TabSet.TabDiagnosticsWarns | components/TabSet/index.tsx:40-46 | a tab whose slug is already in `tabSlugs` does produce its `TabSlugNotUnique` diagnostic |
| TabSet.ActiveTabIsFirst | components/TabSet/index.tsx:48-55 | the active tab is always the first tab, and there is none when there are no tabs |
| TabSet.HintIgnored | components/TabSet/index.tsx:48-50 | tabs that differ only in their `isActive` hint derive the same records |
| TabSet.DeriveTabsConcat | components/TabSet/index.tsx:36-53 | deriving a concatenation of tab lists concatenates the derivations |
| TabSet.DuplicateNamesShareSlug | components/TabSet/index.tsx:38-51 | tabs with equal names get equal slugs: no suffix is added |
| TabSet.NoTabDiagnostics | components/TabSet/index.tsx:34-46 | against the empty per-render set the tab loop logs nothing, whatever the names |
| TabSet.RenderDiagnostics | components/TabSet/index.tsx:24-46 | a render logs the tab-set diagnostic exactly when the module-level set already holds the slug, and never a tab diagnostic |
| TabSet.PageNeverWarns | components/TabSet/index.tsx:15-46 | starting from the empty module-level set, every render of a page logs nothing and leaves the set empty |
| TabSetExamples.WordTabs | components/TabSet/index.tsx:36-53 | tabs whose names are single words keep their names as their slugs |
| TabSetExamples.TestPropsTabs | components/TabSet/index.test.tsx:9-26 | the test's tabs derive to "One", "Two", "Three", all active, with their own names as slugs |
| TabSetExamples.TestPropsExample | components/TabSet/index.test.tsx:9-26 | rendering the test's props shows the slug "Lorem-ipsum-", three active records and the tab "One" (not "Two", whose hint is ignored), and logs nothing |
| TabSetExamples.DemoPageExample | pages/index.tsx:22-40 | the demo's first tab set gets the slug "my-first-tabset", its tabs the slugs "tab-one", "tab-two", "tab-one", and nothing is logged although a name repeats |

## Left out

- The markup (lines 57-68): the list of buttons, the class names from the style
  sheet and React's rendering are not modelled; only the data the markup is built
  from is. The failure at line 66 is modelled as `Failure(ActiveTabUndefined)`.
- `console.error` (lines 27-31 and 41-45): the diagnostics are returned as a list
  of values instead of being written to the console; their message text is not
  modelled.
- `onTabSelect` (lines 17-21) has an empty body and is never called.
- Tab content is a type parameter: React nodes are not modelled.
- Strings are sequences of Dafny characters, which are Unicode scalar values;
  JavaScript strings are UTF-16 code units and may hold lone surrogates. No
  surrogate is whitespace or allowed, so the slug is the same either way, but a
  lone surrogate cannot be written down in the model.
- Props that omit `uniqueName` or `tabs`, or pass values of other types, are
  excluded by the types of the model, as they are by the props interface.
- Re-rendering by React and concurrent renders are not modelled; `RenderPage`
  models the order of renders on one page.
- The rest of the repository (`pages/_app.tsx`, `components/Container`, the
  build and test configuration, the style sheets) is not part of this model.
