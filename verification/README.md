# Program installer launcher — a Dafny model of its core

The launcher (`main.py`) reads a registry of Windows applications. It turns each record into a
program entry with up to three installation sources: a winget package id, a Chocolatey package
id, or the URL of a vendor installer. It then shows the entries as a paged, grouped list with
one check box per source kind and a search field. Each card has an Install/Download button that
starts the first checked source of that program.

This project models the pure logic behind that screen and proves what it guarantees:

- `Catalog` (catalog.dfy): the start-up build loop, from registry records to program entries, and
  the set of source kinds that get a check box.
- `Text` (text.dfy): the Python string operations the screen relies on. These are `lower`,
  `capitalize`, `strip`, substring `in` and `endswith`.
- `Ordering` (ordering.dfy): Python's `<` on strings, and `sorted` over the distinct headings.
- `Grouping` (grouping.dfy): `defaultdict` grouping under `category.strip().capitalize()`, and the
  flat list of headings and cards built from it.
- `Paging` (paging.dfy): the 20-item page slice, the "Page n / m" count, and when Previous and
  Next are enabled.
- `View` (view.dfy): one `_draw_page`, the search and kind filters, and the `_prev_page` and
  `_next_page` handlers.
- `Dispatch` (dispatch.dfy): which source a button uses, and which installer action that source
  starts.
- `Installer` (installer.dfy): the file name a downloaded installer is saved under.
- `Scenarios` (scenarios.dfy): a worked registry record.
- `Wrappers` (wrappers.dfy): `Option`.

Behaviour the model keeps exactly as `main.py` has it:

- A program keeps its category exactly as the record gives it. The heading is trimmed and
  capitalised only when the list is grouped. That is why the search compares against the raw
  category while grouping uses the heading.
- The "na" placeholder disables only the winget and Chocolatey ids. A download field holding
  "na" is non-empty, so it still yields an installer source (`Catalog.UnavailableIsAbsent`).
- A program with no source never reaches the screen. The kind filter drops it before grouping,
  so no card has a button without a source (`View.Draw`, `View.ShownCardsAreOffered`).
- `_next_page` still bounds the page by the flat list of the whole, unfiltered catalog. The
  model keeps this (`View.NextPage`) and proves that it never blocks an enabled Next button
  (`View.NextButtonAdvances`).

## Model

| member | source | states |
|---|---|---|
| Catalog.SourcesOf | main.py:29-35 | An entry's sources are, in the fixed order winget, choco, installer: the winget id when present, non-empty and not "na" in any case; the same for the choco id; the download URL when present and non-empty. No other source appears, and no kind appears twice. |
| Catalog.BuildPrograms | main.py:24-36 | One entry per record, in registry order. The name is `content`, or the key when `content` is absent. The description defaults to "" and the category to "Other". The sources are those above. Records without a source are kept. |
| Catalog.UnavailableIsAbsent | main.py:30-35 | A winget or choco id spelled "na" in any letter case gives the same sources as no id at all. A download field holding "na" still gives an installer source. |
| Catalog.KindPresence | main.py:29-35 | For each kind: the entry has a source of that kind exactly when the record's field for it is usable. |
| Catalog.NoUsableFieldMeansNoSource | main.py:24-36 | A record whose three source fields are all unusable still yields an entry, with the record's name and an empty source list. |
| Catalog.AvailableKindsOfRegistry | main.py:53-57 | Over the entries built from a registry, winget gets a check box exactly when some record has a usable winget id, Chocolatey exactly when some record has a usable choco id, and the installer exactly when some record has a non-empty download field. |
| Catalog.InitialSelectionAdmitsEverySourcedProgram | main.py:169-171 | At start-up every check box is ticked (line 130). A catalog program then passes the kind filter exactly when it has at least one source. |
| Text.Lower | main.py:173 | `lower` keeps the length and leaves no upper-case letter. It changes a character exactly when that character is an upper-case letter, and every character keeps its letter: upper-casing the result gives back the upper-cased original. |
| Text.Capitalize | main.py:174 | `capitalize` keeps the length. Its result starts with no lower-case letter and has no upper-case letter after the first character, and it agrees with the input when both are lower-cased. Together these fix the result. |
| Text.Strip | main.py:168 | `strip` never lengthens a string, and its result neither starts nor ends with whitespace. |
| Text.StripIsTrimmedInfix | main.py:168 | `strip` returns the infix left after removing only whitespace at both ends, and it leaves unchanged a string with no whitespace at its ends. |
| Text.ContainsIffOccurs | main.py:173 | `query in text` holds exactly when the query occurs at some position of the text. |
| Text.CapitalizeAgreesIffLowerAgrees | main.py:174 | Two strings capitalise to the same text exactly when their lower-case forms are equal. |
| Text.CapitalizeIdempotent | main.py:174 | Capitalising a capitalised string changes nothing. |
| Grouping.SameHeadingIffSameFolded | main.py:174 | Two categories land under the same heading exactly when they agree after trimming whitespace and ignoring ASCII case. |
| Grouping.Group | main.py:167-175 | The dictionary's keys are exactly the headings that occur. Each key's list is that heading's programs, in catalog order. |
| Grouping.TagHeadings | main.py:174 | The headings the grouping loop computes are exactly the headings of the programs' categories. |
| Ordering.Sort | main.py:177 | `sorted(grouped)` is strictly increasing under Python's string order and holds exactly the dictionary's keys. |
| Ordering.SortedIsUnique | main.py:177 | Two strictly increasing lists with the same elements are equal, so the heading order is determined by the set of headings alone. |
| Ordering.BelowTotal | main.py:177 | Python's string order is total: of two different strings, one is below the other. |
| Ordering.BelowTransitive | main.py:177 | Python's string order is transitive. |
| Grouping.FlattenIsBlocks | main.py:176-180 | The flat list equals the reference layout: for each heading in increasing order, a header followed by that heading's programs in catalog order. |
| Grouping.FlattenShape | main.py:176-180 | The headers of the flat list are the distinct headings, in strictly increasing order. Every program appears on exactly one card, as a multiset. The list is as long as the number of headings plus the number of programs. |
| Grouping.FlattenMonotone | main.py:176-180 | A list of programs drawn from the catalog never flattens to a longer list than the whole catalog does. |
| View.Visible | main.py:169-175 | A program is kept, as often as it occurs, exactly when one of its sources has a checked kind and the query is empty or occurs in its lower-cased name, description or raw category. No other program is kept. |
| View.VisibleAppend | main.py:170-175 | Filtering two stretches of the catalog one after the other gives the two filtered stretches in the same order, so the kept programs stay in catalog order. |
| View.VisibleOfOne | main.py:170-175 | A single program is kept exactly when it has a source of a checked kind and matches the query. |
| Paging.PageSlice | main.py:182-185 | A page holds at most 20 items. It is empty when it starts at or past the end of the list, and otherwise holds min(20, remaining) items. |
| Paging.PageCount | main.py:215 | The page count in the label is 0 for an empty list. Otherwise it is the least number of pages that holds every item. |
| Paging.NextEnabledIffLaterPage | main.py:219-220 | Next is enabled exactly when the next page starts inside the list, that is when the current page is before the last counted page. |
| Paging.PagesCoverList | main.py:181-185 | The counted pages, put one after another, give back the whole list. |
| Paging.CountedPagesAreNonEmpty | main.py:215 | Every page the label counts holds at least one item. |
| Paging.JoinedIsPrefix | main.py:181-185 | The first n pages together are the first n × 20 items of the list. |
| Dispatch.Select | main.py:200 | The chosen source is the first source, in entry order, whose kind is checked. There is one exactly when some source has a checked kind. |
| Dispatch.SelectPrefersEarlierKinds | main.py:200 | Since sources follow the fixed order, the chosen source's kind ranks no lower than that of any other checked source of the entry. |
| Dispatch.ButtonAction | main.py:200-207 | A button has an action exactly when the program has a source of a checked kind. That action is made from the first checked source `Select` picks, and carries the program's name. |
| Dispatch.ActionRoundTrip | main.py:201-207 | The action keeps the chosen source's id or URL and the program name. Winget, Chocolatey and installer sources lead to the three different actions. |
| View.Render | main.py:181-220 | One page shows the page slice of the flat list: as many rows as the slice holds (at most 20), row i showing item page × 20 + i. If the list holds only offered programs, every card's button has an action. The label shows page + 1 of `PageCount` pages. Previous is enabled exactly when the page is past the first. Next is enabled exactly when the next page starts inside the list, that is when a later counted page exists. The count is 0 exactly for an empty list. |
| View.Draw | main.py:161-220 | For a full drawing from the catalog, filters and page number: at most 20 rows, every card on screen has an action, the label shows page + 1, Previous and Next follow the page count, and the page count is 0 exactly when no program passes the filters. |
| View.DrawShowsPageSlice | main.py:176-212 | The rows of a drawing are the page's stretch of the filtered flat list, in order: as many rows as the page slice holds, row i showing item page × 20 + i. |
| View.DrawCountsPages | main.py:181-220 | The label of a drawing counts the pages of the filtered flat list, and Next is enabled exactly when the next page starts inside that list. |
| View.ShownCardsAreOffered | main.py:170-175 | Every card in the flat list is for a program with a source of a checked kind. |
| View.EmptyIffNothingShown | main.py:176-181 | The flat list is empty exactly when no program passes the filters. |
| View.PrevPage | main.py:254-257 | Previous moves exactly one page back, and stays on the first page. |
| View.NextPage | main.py:259-273 | Next moves one page forward exactly when the next page starts inside the flat list of the whole, unfiltered catalog, and otherwise stays put. |
| View.NavigationStaysInRange | main.py:254-273 | Starting from the first page or a page inside the catalog's flat list, neither button leaves that range. |
| View.PrevAndNextUndoEachOther | main.py:254-273 | A Previous after a Next that moved returns to the page it started from. A Next after Previous does the same from any page in range. |
| View.NextButtonAdvances | main.py:259-273 | Whenever the drawn Next button is enabled (line 220), a click moves exactly one page forward, even though `_next_page` checks the unfiltered list. |
| View.PagePastFilteredListIsEmpty | main.py:181-185 | A page number that starts past the end of the filtered list, which can happen after the filters change, shows no rows and disables Next. |
| Installer.QueryStart | main.py:243 | `split('?')[0]` ends at the first '?' or at the end, and holds no '?'. |
| Installer.SegmentStart | main.py:243 | `basename` starts just after the last separator, or at the start, and holds no separator. |
| Installer.InferFilename | main.py:243-245 | The saved file name always ends in ".exe" or ".msi", in any letter case, and holds no separator and no '?'. |
| Installer.InferFilenameSegment | main.py:243-245 | The URL splits into a directory part, a last segment and a query part. The file name is that segment, followed by ".exe" exactly when the segment lacks an installer extension. |
| Installer.DecompositionIsUnique | main.py:243 | That split of a URL is unique. |
| Installer.KeepsPlainInstallerName | main.py:243-245 | A plain name that already has an installer extension is used as it is. |
| Installer.InferFilenameIdempotent | main.py:243-245 | Inferring a name from an inferred name gives the same name. |
| Scenarios.SevenZipEntry | main.py:24-36 | The 7-Zip record, with winget id "7zip.7zip", choco "na" and an empty download, yields one entry. Its only source is the winget id, and its category is "Other". |
| Scenarios.SevenZipDispatch | main.py:200-207 | With only Chocolatey checked, the 7-Zip card has no action. With winget checked as well, it installs "7zip.7zip" through winget. |

## Left out

- Window layout, widgets, colours and the window icon are left out. So are the Chocolatey
  bootstrap button and the maintenance actions. None of them computes anything about the catalog.
- Loading the applications file (`resource_path`, `json.load`) is left out. The registry is a
  parameter: a sequence of records in the file's key order.
- Catalog.Record: only string-valued fields are modelled. A field that is present with a
  non-string JSON value (null, number) is outside the model.
- Starting winget, Chocolatey or a downloaded installer through PowerShell, the message boxes,
  `urlretrieve` and the temporary directory are left out. The model stops at the `Dispatch.Action`
  a button starts and at the file name `Installer.InferFilename` chooses.
- Dispatch.ButtonAction: a card without a source has the value `None`. In the source, such a
  callback would raise on the missing source. `View.Draw` proves that no such card is ever shown.
- Text.Lower: maps ASCII letters only. Python's `lower` and `capitalize` also map non-ASCII
  letters.
- Installer.SegmentStart: splits on the Windows separators '/' and '\'. It does not model the
  drive-letter and UNC prefixes that Windows `basename` also strips.
- Installer.InferFilename: does not promise that the file lands inside the download directory.
  A last segment such as `D:setup.exe` has no separator, yet Windows path joining treats it as
  drive-relative and places it outside that directory. Path joining is not modelled.
- Grouping.Group: does not state the order of the dictionary's keys. The launcher sorts the keys
  before laying out the list, so their insertion order never shows.
- The check-box labels (`src.capitalize()`, "Source Installer") and the unused `selected_source`
  variable are left out. They do not affect what is shown or installed.
