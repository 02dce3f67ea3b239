/** The flipbook viewer (src/app/components/flipbook/flipbook.component.ts):
    pairing the bound items into pages, the lifecycle hooks, page
    navigation with its `pageChanged` notifications, flipping, and the
    choice between the image URL and the inlined image. The component's
    fields are a `FlipbookState` record and every handler is a function
    from the old record to the new one. */
module Flipbook {
  import opened Wrappers
  import opened Models
  import CatalogService

  /** The component's fields. `current` is the position of the page that
      `currentPage` refers to (`None` when it is undefined); flipping goes
      through that reference, so it changes the page at that position.
      `emitted` lists the values sent on `pageChanged`, oldest first. */
  datatype FlipbookState = FlipbookState(
    items: seq<CatalogItem>,
    showBase64Images: bool,
    pages: seq<FlipbookPage>,
    pageIndex: int,
    current: Option<int>,
    emitted: seq<int>)

  /** The invariant every handler keeps: the index is a page position (or
      0 when there are no pages) and `currentPage` is the page at it. */
  predicate Valid(f: FlipbookState) {
    && 0 <= f.pageIndex
    && (f.pageIndex < |f.pages| || f.pageIndex == 0)
    && f.current == (if f.pageIndex < |f.pages| then Some(f.pageIndex) else None)
  }

  /** The fields as the component is created, before any lifecycle hook:
      the bound inputs, no pages, index 0, no current page. */
  function Created(items: seq<CatalogItem>, showBase64Images: bool): (f: FlipbookState)
    ensures Valid(f) && f.pages == [] && f.current == None && f.emitted == []
    ensures f.items == items && f.showBase64Images == showBase64Images
  {
    FlipbookState(items, showBase64Images, [], 0, None, [])
  }

  // ---------------------------------------------------------------------
  // Pages and lifecycle
  // ---------------------------------------------------------------------

  /** `updateCurrentPage`: looks the page up at the current index; an index
      outside the pages gives no page. */
  function UpdateCurrentPage(f: FlipbookState): (r: FlipbookState)
    ensures r == f.(current := r.current)
    ensures r.current.Some? <==> 0 <= f.pageIndex < |f.pages|
    ensures r.current.Some? ==> r.current.value == f.pageIndex
  {
    f.(current := if 0 <= f.pageIndex < |f.pages| then Some(f.pageIndex) else None)
  }

  /** Looking the current page up again changes nothing in a valid state. */
  lemma UpdateCurrentPageStable(f: FlipbookState)
    requires Valid(f)
    ensures UpdateCurrentPage(f) == f
  {
  }

  /** The loop of `generateFlipbookPages`, two items per step: it builds
      exactly the pages the catalog service builds. */
  method BuildPages(items: seq<CatalogItem>) returns (pages: seq<FlipbookPage>)
    ensures pages == CatalogService.GenerateFlipbookPages(items)
  {
    pages := [];
    var i := 0;
    while i < |items|
      invariant 0 <= i && i % 2 == 0
      invariant pages + CatalogService.PagesFrom(items, i) == CatalogService.PagesFrom(items, 0)
      decreases |items| - i
    {
      var back := if i + 1 < |items| then Some(items[i + 1]) else None;
      var page := FlipbookPage(i / 2 + 1, items[i], back, false);
      assert CatalogService.PagesFrom(items, i) == [page] + CatalogService.PagesFrom(items, i + 2);
      pages := pages + [page];
      i := i + 2;
    }
  }

  /** `generateFlipbookPages`: fresh unflipped pages for the bound items,
      back at the first page, which becomes the current one. */
  function Regenerate(f: FlipbookState): (r: FlipbookState)
    ensures r.pages == CatalogService.GenerateFlipbookPages(f.items)
    ensures CatalogService.Unpair(r.pages) == f.items
    ensures Valid(r) && r.pageIndex == 0
    ensures r.current.Some? <==> f.items != []
    ensures r.items == f.items && r.showBase64Images == f.showBase64Images && r.emitted == f.emitted
  {
    CatalogService.PagesRoundTrip(f.items);
    UpdateCurrentPage(f.(pages := CatalogService.GenerateFlipbookPages(f.items), pageIndex := 0))
  }

  /** `ngOnInit`: builds the pages once the inputs are bound. */
  function NgOnInit(f: FlipbookState): (r: FlipbookState)
    ensures Valid(r) && r.pageIndex == 0
    ensures r.pages == CatalogService.GenerateFlipbookPages(f.items)
    ensures CatalogService.Unpair(r.pages) == f.items
    ensures r.current.Some? <==> f.items != []
    ensures r.items == f.items && r.showBase64Images == f.showBase64Images && r.emitted == f.emitted
  {
    Regenerate(f)
  }

  /** `ngOnChanges`, given the inputs that changed (`None`: unchanged). The
      new input values are bound first. New items rebuild the pages only
      when there is at least one item; an emptied list leaves the old pages
      in place. A change of image format looks the current page up again. */
  function NgOnChanges(f: FlipbookState, items: Option<seq<CatalogItem>>, showBase64Images: Option<bool>): (r: FlipbookState)
    ensures r.items == items.GetOr(f.items)
    ensures r.showBase64Images == showBase64Images.GetOr(f.showBase64Images)
    ensures r.emitted == f.emitted
    ensures items.Some? && items.value != [] ==>
      r.pageIndex == 0 && r.pages == CatalogService.GenerateFlipbookPages(items.value)
    ensures items.None? || items.value == [] ==> r.pages == f.pages && r.pageIndex == f.pageIndex
    ensures Valid(f) ==> Valid(r)
  {
    var bound := f.(items := items.GetOr(f.items), showBase64Images := showBase64Images.GetOr(f.showBase64Images));
    var rebuilt := if items.Some? && |bound.items| > 0 then Regenerate(bound) else bound;
    if showBase64Images.Some? then UpdateCurrentPage(rebuilt) else rebuilt
  }

  /** Emptying the items keeps showing the previous pages, which then no
      longer read back as the bound items. */
  lemma EmptiedItemsLeaveStalePages(f: FlipbookState)
    requires Valid(f) && f.pages != []
    ensures var r := NgOnChanges(f, Some([]), None);
      r.items == [] && r.pages == f.pages && r.current == f.current && CatalogService.Unpair(r.pages) != r.items
  {
  }

  // ---------------------------------------------------------------------
  // Flipping
  // ---------------------------------------------------------------------

  /** The current page's position, when it refers to a page. */
  predicate HasCurrent(f: FlipbookState) {
    f.current.Some? && 0 <= f.current.value < |f.pages|
  }

  /** `flipPage`: turns the current page over; without one, nothing. */
  function FlipPage(f: FlipbookState): (r: FlipbookState)
    ensures r == f.(pages := r.pages) && |r.pages| == |f.pages|
    ensures forall k :: 0 <= k < |f.pages| && f.current != Some(k) ==> r.pages[k] == f.pages[k]
    ensures HasCurrent(f) ==>
      r.pages[f.current.value] == f.pages[f.current.value].(isFlipped := !f.pages[f.current.value].isFlipped)
    ensures !HasCurrent(f) ==> r == f
  {
    if HasCurrent(f) then
      var c := f.current.value;
      f.(pages := f.pages[c := f.pages[c].(isFlipped := !f.pages[c].isFlipped)])
    else f
  }

  /** Flipping twice puts the page back as it was. */
  lemma FlipPageTwice(f: FlipbookState)
    ensures FlipPage(FlipPage(f)) == f
  {
  }

  /** `resetCurrentPageFlip`, which `resetFlip` calls: the current page
      shows its front again; every other page is left as it is. */
  function ResetCurrentPageFlip(f: FlipbookState): (r: FlipbookState)
    ensures r == f.(pages := r.pages) && |r.pages| == |f.pages|
    ensures forall k :: 0 <= k < |f.pages| && f.current != Some(k) ==> r.pages[k] == f.pages[k]
    ensures HasCurrent(f) ==> r.pages[f.current.value] == f.pages[f.current.value].(isFlipped := false)
    ensures !HasCurrent(f) ==> r == f
  {
    if HasCurrent(f) then
      var c := f.current.value;
      f.(pages := f.pages[c := f.pages[c].(isFlipped := false)])
    else f
  }

  /** `resetFlip`: the current page shows its front again, keeping its
      number, front and back; every other page is left as it is. */
  function ResetFlip(f: FlipbookState): (r: FlipbookState)
    ensures r == f.(pages := r.pages) && |r.pages| == |f.pages|
    ensures HasCurrent(f) ==> r.pages[f.current.value] == f.pages[f.current.value].(isFlipped := false)
    ensures forall k :: 0 <= k < |f.pages| && f.current != Some(k) ==> r.pages[k] == f.pages[k]
    ensures Valid(f) ==> Valid(r)
  {
    ResetCurrentPageFlip(f)
  }

  /** Resetting is idempotent, and a reset undoes any flip before it. */
  lemma ResetFlipAbsorbs(f: FlipbookState)
    ensures ResetFlip(ResetFlip(f)) == ResetFlip(f)
    ensures ResetFlip(FlipPage(f)) == ResetFlip(f)
  {
  }

  // ---------------------------------------------------------------------
  // Navigation
  // ---------------------------------------------------------------------

  /** The shared steps of a successful move to page `k`: set the index,
      look the page up, show its front, and emit `k`. */
  function Navigate(f: FlipbookState, k: int): FlipbookState {
    var moved := ResetCurrentPageFlip(UpdateCurrentPage(f.(pageIndex := k)));
    moved.(emitted := moved.emitted + [k])
  }

  /** `r` is `f` after a move to page `k`: `k` is current and shows its
      front, no other page changed, and `k` was emitted once. */
  predicate MovedTo(f: FlipbookState, r: FlipbookState, k: int) {
    && 0 <= k < |f.pages|
    && r.pageIndex == k && r.current == Some(k)
    && |r.pages| == |f.pages|
    && r.pages[k] == f.pages[k].(isFlipped := false)
    && (forall j :: 0 <= j < |f.pages| && j != k ==> r.pages[j] == f.pages[j])
    && r.emitted == f.emitted + [k]
    && r.items == f.items && r.showBase64Images == f.showBase64Images
  }

  /** `previousPage`: from any page but the first, one page back;
      otherwise nothing happens and nothing is emitted. */
  function PreviousPage(f: FlipbookState): (r: FlipbookState)
    ensures 0 < f.pageIndex <= |f.pages| ==> MovedTo(f, r, f.pageIndex - 1)
    ensures f.pageIndex <= 0 ==> r == f
    ensures Valid(f) ==> Valid(r)
  {
    if f.pageIndex > 0 then Navigate(f, f.pageIndex - 1) else f
  }

  /** `nextPage`: from any page but the last, one page on; otherwise
      nothing happens and nothing is emitted. */
  function NextPage(f: FlipbookState): (r: FlipbookState)
    ensures 0 <= f.pageIndex < |f.pages| - 1 ==> MovedTo(f, r, f.pageIndex + 1)
    ensures f.pageIndex >= |f.pages| - 1 ==> r == f
    ensures Valid(f) ==> Valid(r)
  {
    if f.pageIndex < |f.pages| - 1 then Navigate(f, f.pageIndex + 1) else f
  }

  /** `goToPage`: a position among the pages becomes current; any other
      number is ignored. */
  function GoToPage(f: FlipbookState, pageIndex: int): (r: FlipbookState)
    ensures 0 <= pageIndex < |f.pages| ==> MovedTo(f, r, pageIndex)
    ensures !(0 <= pageIndex < |f.pages|) ==> r == f
    ensures Valid(f) ==> Valid(r)
  {
    if pageIndex >= 0 && pageIndex < |f.pages| then Navigate(f, pageIndex) else f
  }

  /** Going to the neighbouring page is the same as stepping to it. */
  lemma GoToNeighbourIsStep(f: FlipbookState)
    requires Valid(f)
    ensures GoToPage(f, f.pageIndex + 1) == NextPage(f)
    ensures GoToPage(f, f.pageIndex - 1) == PreviousPage(f)
  {
  }

  /** Stepping forward and back returns to the same page, showing its front,
      with both moves emitted in order. */
  lemma NextThenPrevious(f: FlipbookState)
    requires Valid(f) && f.pageIndex < |f.pages| - 1
    ensures var r := PreviousPage(NextPage(f));
      && r.pageIndex == f.pageIndex && r.current == f.current
      && r.emitted == f.emitted + [f.pageIndex + 1, f.pageIndex]
      && !r.pages[f.pageIndex].isFlipped && !r.pages[f.pageIndex + 1].isFlipped
  {
    var n := NextPage(f);
    assert MovedTo(f, n, f.pageIndex + 1);
    assert MovedTo(n, PreviousPage(n), f.pageIndex);
  }

  // ---------------------------------------------------------------------
  // Images
  // ---------------------------------------------------------------------

  /** `getImageSource`: no item gives the empty string; the inlined image
      when inlined images are on and the item has a non-empty one; the
      image URL otherwise. */
  function GetImageSource(f: FlipbookState, item: Option<CatalogItem>): (r: string)
    ensures item.None? ==> r == ""
    ensures item.Some? && f.showBase64Images && item.value.imageBase64.Some? && item.value.imageBase64.value != "" ==>
      r == item.value.imageBase64.value
    ensures item.Some? && (!f.showBase64Images || item.value.imageBase64 in {None, Some("")}) ==>
      r == item.value.image
  {
    match item
    case None => ""
    case Some(it) =>
      if f.showBase64Images && it.imageBase64.Some? && it.imageBase64.value != "" then it.imageBase64.value
      else it.image
  }

  /** With inlined images on, an item whose image was served from the cache
      shows the cached data. */
  lemma CachedImageShown(f: FlipbookState, items: seq<CatalogItem>, stored: map<int, string>,
                         outcomes: seq<Option<string>>, i: int)
    requires |outcomes| == |items| && 0 <= i < |items|
    requires f.showBase64Images && CatalogService.IsCached(stored, items[i].id)
    ensures GetImageSource(f, Some(CatalogService.StoreImagesAsBase64(items, stored, outcomes).items[i]))
         == stored[items[i].id]
  {
  }

  /** A freshly normalised product has no inlined image, so it shows its URL
      whatever the format. */
  lemma NormalisedItemShowsUrl(f: FlipbookState, products: seq<Product>, i: int)
    requires 0 <= i < |products|
    ensures GetImageSource(f, Some(CatalogService.ConvertProductsToCatalogItems(products)[i])) == products[i].image
  {
  }

  /** `toggleImageFormat`: switches the image format and nothing else. */
  function ToggleImageFormat(f: FlipbookState): (r: FlipbookState)
    ensures r.showBase64Images == !f.showBase64Images
    ensures r.(showBase64Images := f.showBase64Images) == f
  {
    f.(showBase64Images := !f.showBase64Images)
  }

  lemma ToggleImageFormatTwice(f: FlipbookState)
    ensures ToggleImageFormat(ToggleImageFormat(f)) == f
  {
  }
}
