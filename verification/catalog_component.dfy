/** The catalog page (src/app/components/catalog/catalog.component.ts):
    the filter pipeline that turns the catalog items into the displayed
    list, the reset of the filters, the view and image-format switches,
    the responsive column count and the list-tracking key. The component's
    fields are a `CatalogState` record and every handler is a function
    from the old record to the new one. */
module CatalogComponent {
  import opened Wrappers
  import opened Models
  import opened Text
  import Seqs
  import Sorting
  import CatalogService

  /** The filter inputs: free-text search, exact category ("" for all),
      the closed price range `priceRange = [minPrice, maxPrice]` and the
      sort key. */
  datatype Filters = Filters(
    searchTerm: string,
    selectedCategory: string,
    minPrice: real,
    maxPrice: real,
    sortBy: string)

  /** The initial filter values, which `clearFilters` restores. */
  function DefaultFilters(): (f: Filters)
    ensures f.searchTerm == [] && f.selectedCategory == []
    ensures f.minPrice == 0.0 && f.maxPrice == 2000.0 && f.sortBy == "name"
  {
    Filters("", "", 0.0, 2000.0, "name")
  }

  datatype CatalogState = CatalogState(
    catalogItems: seq<CatalogItem>,
    filteredProducts: seq<CatalogItem>,
    filters: Filters,
    showFlipbook: bool,
    showBase64Images: bool)

  // ---------------------------------------------------------------------
  // The filter pipeline
  // ---------------------------------------------------------------------

  predicate ItemMatches(term: string, item: CatalogItem) {
    FieldsMatch(term, item.title, item.description, item.category)
  }

  function ItemSearch(term: string): CatalogItem -> bool {
    item => ItemMatches(term, item)
  }

  function ItemInCategory(category: string): CatalogItem -> bool {
    (item: CatalogItem) => item.category == category
  }

  function ItemPriceWithin(minPrice: real, maxPrice: real): CatalogItem -> bool {
    (item: CatalogItem) => item.price >= minPrice && item.price <= maxPrice
  }

  /** What an item must satisfy to be displayed, stated in one place: it
      matches a non-blank search term (lower-cased, not trimmed), it is in
      the selected category when one is selected, and its price lies in the
      closed range. */
  predicate Passes(f: Filters, item: CatalogItem) {
    && (!IsBlank(f.searchTerm) ==> ItemMatches(ToLower(f.searchTerm), item))
    && (f.selectedCategory != [] ==> item.category == f.selectedCategory)
    && f.minPrice <= item.price <= f.maxPrice
  }

  /** The three filter stages of `applyFilters`, in their order: search
      (only when the trimmed term is non-empty), category (only when one
      is selected), price. */
  function Narrow(items: seq<CatalogItem>, f: Filters): seq<CatalogItem> {
    var searched := if Trim(f.searchTerm) != [] then Seqs.Filter(items, ItemSearch(ToLower(f.searchTerm))) else items;
    var inCategory := if f.selectedCategory != [] then Seqs.Filter(searched, ItemInCategory(f.selectedCategory)) else searched;
    Seqs.Filter(inCategory, ItemPriceWithin(f.minPrice, f.maxPrice))
  }

  /** The sort comparator of `applyFilters`: price ascending, rating
      descending, and by title for "name" and for any other key. */
  function ItemCompare(sortBy: string, a: CatalogItem, b: CatalogItem): real {
    if sortBy == "price" then a.price - b.price
    else if sortBy == "rating" then b.rating - a.rating
    else LocaleCompare(a.title, b.title) as real
  }

  function ItemOrder(sortBy: string): (CatalogItem, CatalogItem) -> bool {
    (a, b) => ItemCompare(sortBy, a, b) <= 0.0
  }

  lemma ItemOrderIsPreorder(sortBy: string)
    ensures Sorting.TotalPreorder(ItemOrder(sortBy))
  {
    var le := ItemOrder(sortBy);
    forall a, b ensures le(a, b) || le(b, a) {
      LexLeIsTotalOrder(a.title, b.title);
    }
    forall a, b, c | le(a, b) && le(b, c) ensures le(a, c) {
      if sortBy != "price" && sortBy != "rating" {
        LexLeTransitive(a.title, b.title, c.title);
      }
    }
  }

  /** The count of one value after the filter stages. */
  lemma NarrowCountAt(items: seq<CatalogItem>, f: Filters, x: CatalogItem)
    ensures multiset(Narrow(items, f))[x] == if Passes(f, x) then multiset(items)[x] else 0
  {
    var term := ToLower(f.searchTerm);
    var active := Trim(f.searchTerm) != [];
    var searched := if active then Seqs.Filter(items, ItemSearch(term)) else items;
    var inCategory := if f.selectedCategory != [] then Seqs.Filter(searched, ItemInCategory(f.selectedCategory)) else searched;
    assert active <==> !IsBlank(f.searchTerm);
    Seqs.FilterCountAt(items, ItemSearch(term), x);
    Seqs.FilterCountAt(searched, ItemInCategory(f.selectedCategory), x);
    Seqs.FilterCountAt(inCategory, ItemPriceWithin(f.minPrice, f.maxPrice), x);
    assert multiset(searched)[x] == if !active || ItemMatches(term, x) then multiset(items)[x] else 0;
    assert multiset(inCategory)[x] ==
      if f.selectedCategory == [] || x.category == f.selectedCategory then multiset(searched)[x] else 0;
  }

  /** The filter stages keep exactly the passing items, each with its full
      multiplicity. */
  lemma NarrowSpec(items: seq<CatalogItem>, f: Filters)
    ensures forall x :: multiset(Narrow(items, f))[x] == if Passes(f, x) then multiset(items)[x] else 0
    ensures forall x :: x in Narrow(items, f) <==> x in items && Passes(f, x)
  {
    var r := Narrow(items, f);
    forall x ensures multiset(r)[x] == if Passes(f, x) then multiset(items)[x] else 0 {
      NarrowCountAt(items, f, x);
    }
    forall x ensures x in r <==> x in items && Passes(f, x) {
      NarrowCountAt(items, f, x);
      assert x in r <==> multiset(r)[x] > 0;
      assert x in items <==> multiset(items)[x] > 0;
    }
  }

  /** A list ordered by `ItemOrder(sortBy)` is ordered by the chosen key:
      price ascending, rating descending, title otherwise. */
  lemma OrderedByKey(r: seq<CatalogItem>, sortBy: string)
    requires Sorting.SortedBy(r, ItemOrder(sortBy))
    ensures sortBy == "price" ==> forall i, j :: 0 <= i < j < |r| ==> r[i].price <= r[j].price
    ensures sortBy == "rating" ==> forall i, j :: 0 <= i < j < |r| ==> r[i].rating >= r[j].rating
    ensures sortBy != "price" && sortBy != "rating" ==>
      forall i, j :: 0 <= i < j < |r| ==> LexLe(r[i].title, r[j].title)
  {
    forall i, j | 0 <= i < j < |r|
      ensures ItemCompare(sortBy, r[i], r[j]) <= 0.0
    {
      assert ItemOrder(sortBy)(r[i], r[j]);
    }
  }

  /** The list `applyFilters` displays: a permutation of exactly the
      passing items, ordered by the chosen key. */
  function Query(items: seq<CatalogItem>, f: Filters): (r: seq<CatalogItem>)
    ensures forall x :: multiset(r)[x] == if Passes(f, x) then multiset(items)[x] else 0
    ensures forall x :: x in r <==> x in items && Passes(f, x)
    ensures f.sortBy == "price" ==> forall i, j :: 0 <= i < j < |r| ==> r[i].price <= r[j].price
    ensures f.sortBy == "rating" ==> forall i, j :: 0 <= i < j < |r| ==> r[i].rating >= r[j].rating
    ensures f.sortBy != "price" && f.sortBy != "rating" ==>
      forall i, j :: 0 <= i < j < |r| ==> LexLe(r[i].title, r[j].title)
  {
    QueryFacts(items, f);
    Sorting.Sort(Narrow(items, f), ItemOrder(f.sortBy))
  }

  lemma QueryFacts(items: seq<CatalogItem>, f: Filters)
    ensures var r := Sorting.Sort(Narrow(items, f), ItemOrder(f.sortBy));
      && Sorting.SortedBy(r, ItemOrder(f.sortBy))
      && (forall x :: multiset(r)[x] == if Passes(f, x) then multiset(items)[x] else 0)
      && (forall x :: x in r <==> x in items && Passes(f, x))
      && (f.sortBy == "price" ==> forall i, j :: 0 <= i < j < |r| ==> r[i].price <= r[j].price)
      && (f.sortBy == "rating" ==> forall i, j :: 0 <= i < j < |r| ==> r[i].rating >= r[j].rating)
      && (f.sortBy != "price" && f.sortBy != "rating" ==>
            forall i, j :: 0 <= i < j < |r| ==> LexLe(r[i].title, r[j].title))
  {
    var n := Narrow(items, f);
    var r := Sorting.Sort(n, ItemOrder(f.sortBy));
    NarrowSpec(items, f);
    ItemOrderIsPreorder(f.sortBy);
    Sorting.SortIsSorted(n, ItemOrder(f.sortBy));
    OrderedByKey(r, f.sortBy);
    assert multiset(r) == multiset(n);
    forall x ensures x in r <==> x in items && Passes(f, x) {
      assert x in r <==> x in multiset(r);
      assert x in n <==> x in multiset(n);
    }
  }

  /** Items that all pass go through the filter stages untouched. */
  lemma NarrowOfPassing(items: seq<CatalogItem>, f: Filters)
    requires forall i :: 0 <= i < |items| ==> Passes(f, items[i])
    ensures Narrow(items, f) == items
  {
    var term := ToLower(f.searchTerm);
    if Trim(f.searchTerm) != [] {
      assert forall i :: 0 <= i < |items| ==> ItemSearch(term)(items[i]);
      assert Seqs.Filter(items, ItemSearch(term)) == items;
    }
    if f.selectedCategory != [] {
      assert forall i :: 0 <= i < |items| ==> ItemInCategory(f.selectedCategory)(items[i]);
      assert Seqs.Filter(items, ItemInCategory(f.selectedCategory)) == items;
    }
    assert forall i :: 0 <= i < |items| ==> ItemPriceWithin(f.minPrice, f.maxPrice)(items[i]);
  }

  /** The displayed list is a fixed point of the pipeline: filtering and
      sorting it again with the same filters changes nothing. */
  lemma QueryIdempotent(items: seq<CatalogItem>, f: Filters)
    ensures Query(Query(items, f), f) == Query(items, f)
  {
    var r := Query(items, f);
    forall i | 0 <= i < |r| ensures Passes(f, r[i]) {
      assert r[i] in r;
    }
    NarrowOfPassing(r, f);
    QueryFacts(items, f);
    Sorting.SortOfSorted(r, ItemOrder(f.sortBy));
  }

  /** `applyFilters`: recomputes the displayed list from the catalog items
      and the current filters; nothing else changes. */
  function ApplyFilters(st: CatalogState): (r: CatalogState)
    ensures r.catalogItems == st.catalogItems && r.filters == st.filters
    ensures r.showFlipbook == st.showFlipbook && r.showBase64Images == st.showBase64Images
    ensures forall x :: multiset(r.filteredProducts)[x] == if Passes(st.filters, x) then multiset(st.catalogItems)[x] else 0
    ensures forall x :: x in r.filteredProducts <==> x in st.catalogItems && Passes(st.filters, x)
    ensures st.filters.sortBy == "price" ==>
      forall i, j :: 0 <= i < j < |r.filteredProducts| ==> r.filteredProducts[i].price <= r.filteredProducts[j].price
    ensures st.filters.sortBy == "rating" ==>
      forall i, j :: 0 <= i < j < |r.filteredProducts| ==> r.filteredProducts[i].rating >= r.filteredProducts[j].rating
    ensures st.filters.sortBy != "price" && st.filters.sortBy != "rating" ==>
      forall i, j :: 0 <= i < j < |r.filteredProducts| ==> LexLe(r.filteredProducts[i].title, r.filteredProducts[j].title)
  {
    st.(filteredProducts := Query(st.catalogItems, st.filters))
  }

  /** The pipeline's result depends on the items and the filters only: the
      previous displayed list plays no part. */
  lemma ApplyFiltersForgetsPrevious(st: CatalogState, shown: seq<CatalogItem>)
    ensures ApplyFilters(st.(filteredProducts := shown)) == ApplyFilters(st)
  {
  }

  /** `clearFilters`: the default filters, and on display every item priced
      within [0, 2000], in title order. */
  function ClearFilters(st: CatalogState): (r: CatalogState)
    ensures r.filters == DefaultFilters() && r.catalogItems == st.catalogItems
    ensures r.showFlipbook == st.showFlipbook && r.showBase64Images == st.showBase64Images
    ensures forall x :: (multiset(r.filteredProducts)[x] ==
                         if 0.0 <= x.price <= 2000.0 then multiset(st.catalogItems)[x] else 0)
    ensures forall i, j :: 0 <= i < j < |r.filteredProducts| ==>
      LexLe(r.filteredProducts[i].title, r.filteredProducts[j].title)
  {
    ApplyFilters(st.(filters := DefaultFilters()))
  }

  /** After a reset, the built-in catalog is shown in full: all six items
      are priced within the default range. */
  lemma ClearFiltersShowsBuiltInCatalog(st: CatalogState)
    requires st.catalogItems == CatalogService.ConvertProductsToCatalogItems(CatalogService.MockProducts())
    ensures |ClearFilters(st).filteredProducts| == 6
  {
    var items := st.catalogItems;
    CatalogService.MockProductsWellFormed();
    forall i | 0 <= i < |items| ensures Passes(DefaultFilters(), items[i]) {
    }
    NarrowOfPassing(items, DefaultFilters());
  }

  /** A search no item matches empties the list, whatever the other
      filters say. */
  lemma SearchWithoutMatchIsEmpty(items: seq<CatalogItem>, f: Filters)
    requires !IsBlank(f.searchTerm)
    requires forall i :: 0 <= i < |items| ==> !ItemMatches(ToLower(f.searchTerm), items[i])
    ensures Query(items, f) == []
  {
  }

  /** The search is case-insensitive: when the item's title contains a
      variant `v` of the term that differs from it only in ASCII case, the
      item is kept, given it passes the other filters. */
  lemma SearchFindsCaseVariedTitle(items: seq<CatalogItem>, f: Filters, item: CatalogItem, v: string)
    requires item in items
    requires Contains(item.title, v) && ToLower(v) == ToLower(f.searchTerm)
    requires f.selectedCategory == [] || item.category == f.selectedCategory
    requires f.minPrice <= item.price <= f.maxPrice
    ensures item in Query(items, f)
  {
    CaseVariedTitleMatches(f.searchTerm, v, item.title, item.description, item.category);
  }

  /** The component's search agrees with the service's `searchProducts`:
      searching the products and then normalising gives the same list as
      normalising and then applying the component's search stage. */
  lemma SearchAgreesWithService(term: string, products: seq<Product>)
    requires !IsBlank(term)
    ensures CatalogService.ConvertProductsToCatalogItems(CatalogService.SearchProducts(term, products))
         == Seqs.Filter(CatalogService.ConvertProductsToCatalogItems(products), ItemSearch(ToLower(term)))
  {
    var t := ToLower(term);
    Seqs.MapFilter(products, CatalogService.ToCatalogItem, CatalogService.ProductSearch(t), ItemSearch(t));
  }

  /** Likewise the price stage agrees with the service's
      `filterProductsByPrice`. */
  lemma PriceFilterAgreesWithService(products: seq<Product>, minPrice: real, maxPrice: real)
    ensures CatalogService.ConvertProductsToCatalogItems(CatalogService.FilterProductsByPrice(products, minPrice, maxPrice))
         == Seqs.Filter(CatalogService.ConvertProductsToCatalogItems(products), ItemPriceWithin(minPrice, maxPrice))
  {
    Seqs.MapFilter(products, CatalogService.ToCatalogItem, CatalogService.PriceWithin(minPrice, maxPrice), ItemPriceWithin(minPrice, maxPrice));
  }

  // ---------------------------------------------------------------------
  // Switches, layout and tracking
  // ---------------------------------------------------------------------

  /** `toggleFlipbookView`: switches between grid and flipbook and touches
      nothing else. */
  function ToggleFlipbookView(st: CatalogState): (r: CatalogState)
    ensures r.showFlipbook == !st.showFlipbook
    ensures r.(showFlipbook := st.showFlipbook) == st
  {
    st.(showFlipbook := !st.showFlipbook)
  }

  lemma ToggleFlipbookViewTwice(st: CatalogState)
    ensures ToggleFlipbookView(ToggleFlipbookView(st)) == st
  {
  }

  /** `toggleImageFormat`: only an authenticated user switches between URL
      and inlined images; for anyone else the state stays as it is. */
  function ToggleImageFormat(st: CatalogState, authenticated: bool): (r: CatalogState)
    ensures authenticated ==> r.showBase64Images == !st.showBase64Images
    ensures r.(showBase64Images := st.showBase64Images) == st
    ensures !authenticated ==> r == st
  {
    if authenticated then st.(showBase64Images := !st.showBase64Images) else st
  }

  lemma ToggleImageFormatTwice(st: CatalogState, authenticated: bool)
    ensures ToggleImageFormat(ToggleImageFormat(st, authenticated), authenticated) == st
  {
  }

  /** The layout breakpoints, in pixels. */
  const Breakpoints: seq<int> := [768, 1200, 1600]

  /** How many of the breakpoints a window width reaches. */
  function Reached(breakpoints: seq<int>, width: int): nat {
    if |breakpoints| == 0 then 0
    else (if breakpoints[0] <= width then 1 else 0) + Reached(breakpoints[1..], width)
  }

  lemma ReachedBreakpoints(width: int)
    ensures Reached(Breakpoints, width)
         == (if 768 <= width then 1 else 0) + (if 1200 <= width then 1 else 0) + (if 1600 <= width then 1 else 0)
  {
    var b := Breakpoints;
    assert b[1..] == [1200, 1600] && b[1..][1..] == [1600] && b[1..][1..][1..] == [];
    assert Reached([1600], width) == (if 1600 <= width then 1 else 0) + Reached([], width);
    assert Reached([1200, 1600], width) == (if 1200 <= width then 1 else 0) + Reached([1600], width);
    assert Reached(b, width) == (if 768 <= width then 1 else 0) + Reached([1200, 1600], width);
  }

  /** `getGridCols`: one column below 768 pixels, and one more for each of
      the breakpoints 768, 1200 and 1600 the window width reaches. */
  function GridCols(width: int): (r: int)
    ensures 1 <= r <= 4
    ensures r == 1 + Reached(Breakpoints, width)
  {
    ReachedBreakpoints(width);
    if width < 768 then 1
    else if width < 1200 then 2
    else if width < 1600 then 3
    else 4
  }

  /** A wider window never gets fewer columns. */
  lemma GridColsMonotone(narrow: int, wide: int)
    requires narrow <= wide
    ensures GridCols(narrow) <= GridCols(wide)
  {
  }

  /** `trackByProductId`: the list key is the product id; the position in
      the list plays no part. */
  function TrackByProductId(index: int, item: CatalogItem): int {
    item.id
  }

  /** The key is the id of the product the item was made from. */
  lemma TrackByIsProductId(products: seq<Product>, index: int, i: int)
    requires 0 <= i < |products|
    ensures TrackByProductId(index, CatalogService.ConvertProductsToCatalogItems(products)[i]) == products[i].id
  {
  }

  /** Inlining images keeps every item's key, so the rendered list keeps
      its elements when the inlined images arrive. */
  lemma TrackBySurvivesInlining(items: seq<CatalogItem>, stored: map<int, string>, outcomes: seq<Option<string>>, i: int)
    requires |outcomes| == |items| && 0 <= i < |items|
    ensures TrackByProductId(i, CatalogService.StoreImagesAsBase64(items, stored, outcomes).items[i])
         == TrackByProductId(i, items[i])
  {
  }
}
