/** One drawing of the program list and the two page buttons (main.py, `_draw_page`,
    `_prev_page`, `_next_page`): the search and source filter, the grouped flat list, the page
    shown, and the page number kept between drawings. */
module View {
  import opened Wrappers
  import Text
  import opened Catalog
  import Grouping
  import Paging
  import Dispatch

  /** The search text as compared: `search.strip().lower()`. */
  function Query(search: string): string {
    Text.Lower(Text.Strip(search))
  }

  /** An empty query matches everything; otherwise it must occur in the lower-cased name,
      description or category (the category as stored, not its heading). */
  predicate Matches(p: Program, query: string) {
    || query == []
    || Text.Contains(Text.Lower(p.name), query)
    || Text.Contains(Text.Lower(p.desc), query)
    || Text.Contains(Text.Lower(p.category), query)
  }

  /** Some source of the program has a checked kind. */
  predicate Offered(p: Program, enabled: set<Kind>) {
    exists s :: s in p.sources && s.Kind() in enabled
  }

  /** The programs that survive the source and search filters, in catalog order. */
  function Visible(programs: seq<Program>, enabled: set<Kind>, query: string): (r: seq<Program>)
    ensures |r| <= |programs|
    ensures forall p :: multiset(r)[p] == if Offered(p, enabled) && Matches(p, query) then multiset(programs)[p] else 0
  {
    if programs == [] then []
    else
      var init := programs[..|programs| - 1];
      var last := programs[|programs| - 1];
      assert programs == init + [last];
      Visible(init, enabled, query) + (if Offered(last, enabled) && Matches(last, query) then [last] else [])
  }

  /** Filtering a catalog made of two parts filters each part and keeps them in order. With
      `VisibleOfOne` this fixes `Visible` completely: the kept programs stay in catalog order. */
  lemma {:induction false} VisibleAppend(a: seq<Program>, b: seq<Program>, enabled: set<Kind>, query: string)
    ensures Visible(a + b, enabled, query) == Visible(a, enabled, query) + Visible(b, enabled, query)
    decreases |b|
  {
    if b == [] {
      assert a + b == a;
    } else {
      var init := b[..|b| - 1];
      var last := b[|b| - 1];
      var kept := if Offered(last, enabled) && Matches(last, query) then [last] else [];
      SplitLast(a, b);
      VisibleAppend(a, init, enabled, query);
      assert Visible(a + b, enabled, query) == Visible(a + init, enabled, query) + kept;
      assert Visible(b, enabled, query) == Visible(init, enabled, query) + kept;
      Associative(Visible(a, enabled, query), Visible(init, enabled, query), kept);
    }
  }

  lemma Associative<T>(x: seq<T>, y: seq<T>, z: seq<T>)
    ensures (x + y) + z == x + (y + z)
  {
  }

  lemma SplitLast<T>(a: seq<T>, b: seq<T>)
    requires b != []
    ensures (a + b)[..|a + b| - 1] == a + b[..|b| - 1]
    ensures (a + b)[|a + b| - 1] == b[|b| - 1]
  {
  }

  /** A single program is kept exactly when it has a checked source and matches the query. */
  lemma VisibleOfOne(p: Program, enabled: set<Kind>, query: string)
    ensures Visible([p], enabled, query) == if Offered(p, enabled) && Matches(p, query) then [p] else []
  {
    assert [p][..0] == [];
  }

  /** One row of the scrollable frame: a heading label, or a card with name, description and the
      action of its button. */
  datatype Row = HeadingRow(heading: string) | CardRow(name: string, desc: string, action: Option<Dispatch.Action>)

  /** What a drawing shows: the rows of the current page, the "Page n / m" label, and whether the
      Previous and Next buttons are enabled. */
  datatype Screen = Screen(rows: seq<Row>, pageNumber: int, pageCount: int, prevEnabled: bool, nextEnabled: bool)

  function RowOf(item: Grouping.Item, enabled: set<Kind>): Row {
    match item
    case Header(h) => HeadingRow(h)
    case Entry(p) => CardRow(p.name, p.desc, Dispatch.ButtonAction(p, enabled))
  }

  /** The flat list `_draw_page` builds for the current filters. */
  function ShownList(catalog: seq<Program>, enabled: set<Kind>, search: string): seq<Grouping.Item> {
    Grouping.Flatten(Visible(catalog, enabled, Query(search)))
  }

  /** The rows of page `page` of a flat list. */
  function PageRows(flat: seq<Grouping.Item>, page: nat, enabled: set<Kind>): (rows: seq<Row>)
    ensures |rows| == |Paging.PageSlice(flat, page, Paging.PageSize)| <= Paging.PageSize
    ensures forall i :: 0 <= i < |rows| ==>
              page * Paging.PageSize + i < |flat| && rows[i] == RowOf(flat[page * Paging.PageSize + i], enabled)
    ensures (forall i :: 0 <= i < |flat| && flat[i].Entry? ==> Offered(flat[i].program, enabled))
            ==> forall r :: r in rows && r.CardRow? ==> r.action.Some?
  {
    var slice := Paging.PageSlice(flat, page, Paging.PageSize);
    var rows := seq(|slice|, i requires 0 <= i < |slice| => RowOf(slice[i], enabled));
    SliceKeepsOffered(flat, page, enabled);
    forall i | 0 <= i < |rows|
      ensures page * Paging.PageSize + i < |flat| && rows[i] == RowOf(flat[page * Paging.PageSize + i], enabled)
    {
      Paging.PageItem(flat, page, Paging.PageSize, i);
    }
    assert forall r :: r in rows ==> exists i :: 0 <= i < |slice| && r == RowOf(slice[i], enabled);
    rows
  }

  lemma SliceKeepsOffered(flat: seq<Grouping.Item>, page: nat, enabled: set<Kind>)
    ensures (forall i :: 0 <= i < |flat| && flat[i].Entry? ==> Offered(flat[i].program, enabled))
            ==> forall item :: item in Paging.PageSlice(flat, page, Paging.PageSize) && item.Entry? ==> Offered(item.program, enabled)
  {
    Paging.PageSliceIsSlice(flat, page, Paging.PageSize);
  }

  /** The screen for page `page` of a flat list whose cards are all for offered programs. */
  function Render(flat: seq<Grouping.Item>, page: nat, enabled: set<Kind>): (sc: Screen)
    requires forall i :: 0 <= i < |flat| && flat[i].Entry? ==> Offered(flat[i].program, enabled)
    ensures |sc.rows| == |Paging.PageSlice(flat, page, Paging.PageSize)| <= Paging.PageSize
    ensures forall i :: 0 <= i < |sc.rows| ==>
              page * Paging.PageSize + i < |flat| && sc.rows[i] == RowOf(flat[page * Paging.PageSize + i], enabled)
    ensures forall r :: r in sc.rows && r.CardRow? ==> r.action.Some?
    ensures sc.pageNumber == page + 1
    ensures sc.pageCount == Paging.PageCount(|flat|, Paging.PageSize)
    ensures sc.prevEnabled <==> page > 0
    ensures sc.nextEnabled <==> (page + 1) * Paging.PageSize < |flat|
    ensures sc.nextEnabled <==> page + 1 < sc.pageCount
    ensures sc.pageCount == 0 <==> flat == []
  {
    Paging.NextEnabledIffLaterPage(page, Paging.PageSize, |flat|);
    Screen(PageRows(flat, page, enabled),
           page + 1,
           Paging.PageCount(|flat|, Paging.PageSize),
           Paging.PrevEnabled(page),
           Paging.NextEnabled(page, Paging.PageSize, |flat|))
  }

  /** One call of `_draw_page` on page `page`. */
  function Draw(catalog: seq<Program>, enabled: set<Kind>, search: string, page: nat): (sc: Screen)
    ensures |sc.rows| <= Paging.PageSize
    ensures forall r :: r in sc.rows && r.CardRow? ==> r.action.Some?
    ensures sc.pageNumber == page + 1
    ensures sc.prevEnabled <==> page > 0
    ensures sc.nextEnabled <==> page + 1 < sc.pageCount
    ensures sc.pageCount == 0 <==> Visible(catalog, enabled, Query(search)) == []
  {
    ShownCardsAreOffered(catalog, enabled, search);
    EmptyIffNothingShown(catalog, enabled, search);
    Render(ShownList(catalog, enabled, search), page, enabled)
  }

  /** The rows a drawing shows are the page's stretch of the filtered flat list, in order. */
  lemma DrawShowsPageSlice(catalog: seq<Program>, enabled: set<Kind>, search: string, page: nat)
    ensures var flat := ShownList(catalog, enabled, search);
            var rows := Draw(catalog, enabled, search, page).rows;
            && |rows| == |Paging.PageSlice(flat, page, Paging.PageSize)|
            && forall i :: 0 <= i < |rows| ==>
                 page * Paging.PageSize + i < |flat| && rows[i] == RowOf(flat[page * Paging.PageSize + i], enabled)
  {
    ShownCardsAreOffered(catalog, enabled, search);
    var flat := ShownList(catalog, enabled, search);
    assert Draw(catalog, enabled, search, page) == Render(flat, page, enabled);
  }

  /** The label of a drawing counts the pages of the filtered flat list, and Next is enabled
      exactly when the next page starts inside it. */
  lemma DrawCountsPages(catalog: seq<Program>, enabled: set<Kind>, search: string, page: nat)
    ensures var flat := ShownList(catalog, enabled, search);
            var sc := Draw(catalog, enabled, search, page);
            && sc.pageCount == Paging.PageCount(|flat|, Paging.PageSize)
            && (sc.nextEnabled <==> (page + 1) * Paging.PageSize < |flat|)
  {
    ShownCardsAreOffered(catalog, enabled, search);
    var flat := ShownList(catalog, enabled, search);
    assert Draw(catalog, enabled, search, page) == Render(flat, page, enabled);
  }

  /** The flat list is empty exactly when no program passes the filters. */
  lemma EmptyIffNothingShown(catalog: seq<Program>, enabled: set<Kind>, search: string)
    ensures ShownList(catalog, enabled, search) == [] <==> Visible(catalog, enabled, Query(search)) == []
  {
    var shown := Visible(catalog, enabled, Query(search));
    Grouping.FlattenShape(shown);
    if shown == [] {
      assert Grouping.CategoryHeadings(shown) == {};
    }
  }

  /** Every card in the flat list is for a program that passed the filter, so it has a checked
      source and its button has an action. */
  lemma ShownCardsAreOffered(catalog: seq<Program>, enabled: set<Kind>, search: string)
    ensures forall i :: 0 <= i < |ShownList(catalog, enabled, search)| && ShownList(catalog, enabled, search)[i].Entry? ==>
              Offered(ShownList(catalog, enabled, search)[i].program, enabled)
  {
    var shown := Visible(catalog, enabled, Query(search));
    var flat := ShownList(catalog, enabled, search);
    Grouping.FlattenShape(shown);
    forall i | 0 <= i < |flat| && flat[i].Entry?
      ensures Offered(flat[i].program, enabled)
    {
      EntryInCards(flat, i);
      assert flat[i].program in multiset(Grouping.Cards(flat));
      assert multiset(shown)[flat[i].program] > 0;
    }
  }

  lemma {:induction false} EntryInCards(items: seq<Grouping.Item>, i: nat)
    requires i < |items| && items[i].Entry?
    ensures items[i].program in Grouping.Cards(items)
    decreases i
  {
    if i > 0 {
      EntryInCards(items[1..], i - 1);
    }
  }

  /** `_prev_page`: one page back unless already on the first. */
  function PrevPage(page: nat): (r: nat)
    ensures page > 0 ==> r == page - 1
    ensures page == 0 ==> r == 0
  {
    if page > 0 then page - 1 else page
  }

  /** `_next_page`: one page forward while the next page starts inside the flat list of the WHOLE
      catalog, ignoring the source and search filters of the list on screen. */
  function NextPage(page: nat, catalog: seq<Program>): (r: nat)
    ensures r == page || r == page + 1
    ensures r == page + 1 <==> (page + 1) * Paging.PageSize < |Grouping.Flatten(catalog)|
  {
    if (page + 1) * Paging.PageSize < |Grouping.Flatten(catalog)| then page + 1 else page
  }

  /** The page number is the first page, or a page that starts inside the catalog's flat list. */
  predicate InRange(page: nat, catalog: seq<Program>) {
    page == 0 || page * Paging.PageSize < |Grouping.Flatten(catalog)|
  }

  /** Both buttons keep the page number in range. */
  lemma NavigationStaysInRange(page: nat, catalog: seq<Program>)
    ensures InRange(page, catalog) ==> InRange(PrevPage(page), catalog) && InRange(NextPage(page, catalog), catalog)
  {
    if page > 1 {
      Paging.MulMonotone(page - 1, page, Paging.PageSize);
    }
  }

  /** Previous undoes a Next that moved, and Next undoes a Previous from an in-range page. */
  lemma PrevAndNextUndoEachOther(page: nat, catalog: seq<Program>)
    ensures NextPage(page, catalog) != page ==> PrevPage(NextPage(page, catalog)) == page
    ensures page > 0 && InRange(page, catalog) ==> NextPage(PrevPage(page), catalog) == page
  {
  }

  /** Although `_next_page` bounds the page by the unfiltered list, the filtered list is never
      longer than the unfiltered one, so whenever the Next button is enabled a click moves
      exactly one page forward. */
  lemma NextButtonAdvances(catalog: seq<Program>, enabled: set<Kind>, search: string, page: nat)
    ensures Paging.NextEnabled(page, Paging.PageSize, |ShownList(catalog, enabled, search)|) ==> NextPage(page, catalog) == page + 1
  {
    var shown := Visible(catalog, enabled, Query(search));
    Paging.NextEnabledIffLaterPage(page, Paging.PageSize, |ShownList(catalog, enabled, search)|);
    VisibleComesFromCatalog(catalog, enabled, Query(search));
    Grouping.FlattenMonotone(shown, catalog);
  }

  lemma VisibleComesFromCatalog(catalog: seq<Program>, enabled: set<Kind>, query: string)
    ensures forall p :: p in Visible(catalog, enabled, query) ==> p in catalog
  {
    var shown := Visible(catalog, enabled, query);
    forall p | p in shown ensures p in catalog {
      assert multiset(shown)[p] > 0;
    }
  }

  /** The page number is not reset when the filters change: a page that starts past the end of
      the filtered list shows no rows, with Next disabled. */
  lemma PagePastFilteredListIsEmpty(catalog: seq<Program>, enabled: set<Kind>, search: string, page: nat)
    ensures page * Paging.PageSize >= |ShownList(catalog, enabled, search)| ==>
              Draw(catalog, enabled, search, page).rows == [] && !Draw(catalog, enabled, search, page).nextEnabled
  {
  }
}
