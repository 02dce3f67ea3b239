# SuperGiros catalog: a Dafny model

SuperGiros is an Angular single-page catalog. It fetches products from a
remote store API and normalises them into catalog items. It can inline item
images as data URLs for signed-in users, with a cache kept in browser
storage. The catalog page filters and sorts the items, and the items can
also be shown as a two-sided flipbook. This project models the logic at
the heart of that application:

- the records of `src/app/models/interfaces.ts` (`Models`);
- the catalog service `src/app/services/catalog.service.ts`
  (`CatalogService`):
  - normalisation and flipbook pagination;
  - the image-inlining cache merge;
  - the network, then storage, then built-in fallback chain;
  - the built-in products;
  - the standalone search, price filter and sort;
- the catalog page `src/app/components/catalog/catalog.component.ts`
  (`CatalogComponent`):
  - the filter pipeline and its reset;
  - the view and image-format switches;
  - the column count and the list-tracking key;
- the flipbook viewer `src/app/components/flipbook/flipbook.component.ts`
  (`Flipbook`):
  - page building and the lifecycle hooks;
  - navigation and its `pageChanged` notifications;
  - flipping and the image-source choice.

The JavaScript built-ins the code relies on are modelled in their own
modules:

- `Text`: `trim`, `toLowerCase`, `includes` and `localeCompare`.
- `Seqs`: `Array.prototype.filter` and `map`.
- `Sorting`: `Array.prototype.sort`. ECMAScript 2019 and later require
  the sort to be stable, so the model is a stable insertion sort. "`a`
  may precede `b`" means the comparator returns a value `<= 0`.

Component state is an immutable record. Each event handler is a function
from the old record to the new one.

These inputs are parameters, where `None` means failure or absence:

- HTTP responses;
- the stored product list and the stored image cache;
- the result of converting each image;
- whether the user is authenticated;
- the window width.

The values a component emits are recorded in the state as a sequence.

Behaviour worth noting:

- The search term is lower-cased but not trimmed. Trimming only decides
  whether the search is active.
- Normalisation skips nothing. Every product becomes exactly one item.
- Prices are compared against the range as they are, without clamping.
- In the catalog page, rating sorts descending. In the service's
  `sortProducts`, rating follows the requested order like every other key.

## Model

| member | source | states |
|---|---|---|
| `Text.Trim` | src/app/services/catalog.service.ts:230 | The trimmed term is empty exactly when the term is all ECMAScript whitespace. Otherwise it is a substring of the term that starts and ends with a non-whitespace character. |
| `Text.ToLower` | src/app/services/catalog.service.ts:234 | Lower-casing keeps the length and changes only upper-case ASCII letters. No upper-case ASCII letter is left. |
| `Text.ToLowerIdempotent` | src/app/services/catalog.service.ts:234 | Lower-casing an already lower-cased string changes nothing. |
| `Text.ContainsIffOccurs` | src/app/services/catalog.service.ts:236-238 | `includes` holds exactly when the term occurs at some position of the string. |
| `Text.LocaleCompare` | src/app/services/catalog.service.ts:266 | The comparison is zero exactly for equal titles. It is negative or zero exactly when the first title orders first, and it is -1, 0 or 1. |
| `Text.CaseVariedTitleMatches` | src/app/components/catalog/catalog.component.ts:886-891 | When the title contains a string that differs from the term only in ASCII letter case, the lower-cased term satisfies the three-field search. |
| `Seqs.FilterSpec` | src/app/services/catalog.service.ts:246-248 | `filter` keeps exactly the passing elements, each with its full multiplicity, as an order-preserving subsequence. |
| `Sorting.SortIsSorted` | src/app/services/catalog.service.ts:255-271 | With a comparator that induces a total preorder, the sorted array is ordered by it. |
| `Sorting.SortOfSorted` | src/app/services/catalog.service.ts:255-271 | Sorting an array that is already ordered leaves it unchanged, because the sort is stable. |
| `Sorting.SortIdempotent` | src/app/services/catalog.service.ts:255-271 | Sorting the result of a sort again with the same comparator changes nothing. |
| `CatalogService.ConvertProductsToCatalogItems` | src/app/services/catalog.service.ts:71-81 | There is one item per product, in order. Each item carries the product's id, title, description, image, category and price, the rating rate, and no inlined image. |
| `CatalogService.ConvertAppend` | src/app/services/catalog.service.ts:71-81 | Normalisation distributes over concatenation, so no product is merged, dropped or reordered. |
| `CatalogService.GenerateFlipbookPages` | src/app/services/catalog.service.ts:86-102 | There are ceil(n/2) unflipped pages, numbered from 1. Page k has item 2k in front and item 2k+1 behind. The back is missing exactly on the last page of an odd-length list, and there are no pages exactly when there are no items. |
| `CatalogService.PagesRoundTrip` | src/app/services/catalog.service.ts:86-102 | Reading the pages front, back, front, back gives back exactly the item list. |
| `CatalogService.StoreImagesAsBase64` | src/app/services/catalog.service.ts:127-154 | Only the inlined image of each item changes. A truthy cache entry is used as it is, a successful conversion is inlined, and a failed conversion leaves the item unchanged. |
| `CatalogService.StoreImagesCacheKeys` | src/app/services/catalog.service.ts:128-151 | With the storage write succeeding, the saved cache keeps every key it had and gains exactly the ids of successful conversions. |
| `CatalogService.StoreImagesCacheValues` | src/app/services/catalog.service.ts:128-151 | A truthy entry is never overwritten, and an id nobody converted keeps its value. A converted id ends with its last successful conversion. |
| `CatalogService.ReplayFromCache` | src/app/services/catalog.service.ts:127-162 | Take distinct ids and non-empty conversions. A second run against the saved cache, with every conversion failing, reproduces the first run's items. |
| `CatalogService.GetProducts` | src/app/services/catalog.service.ts:20-38 | With the storage write succeeding, a fetched list is returned and stored. On failure the stored list is returned, and with nothing stored the six built-in products. The storage changes only on success. |
| `CatalogService.LastKnownGood` | src/app/services/catalog.service.ts:20-38 | After a successful fetch, a failing fetch returns what the successful one delivered. |
| `CatalogService.FallbackCategories` | src/app/services/catalog.service.ts:63 | The offline category list has four entries. |
| `CatalogService.GetCategories` | src/app/services/catalog.service.ts:58-66 | The fetched list is returned, or on failure the fixed four categories. |
| `CatalogService.GetProductsByCategory` | src/app/services/catalog.service.ts:43-53 | The server's list is returned untouched. On failure the result is the exact-category matches of `getProducts`, each with its multiplicity, in order. |
| `CatalogService.MockProducts` | src/app/services/catalog.service.ts:167-224 | The built-in list has six products. |
| `CatalogService.MockProductsWellFormed` | src/app/services/catalog.service.ts:167-224 | The built-in products have ids 1 to 6, which are distinct. Prices lie within the default range [0, 2000], rates within [0, 5] and counts are non-negative. |
| `CatalogService.OfflineElectronics` | src/app/services/catalog.service.ts:43-53 | With the network down and nothing stored, the electronics category yields built-in products 1, 2, 3 and 6, in that order. |
| `CatalogService.SearchProducts` | src/app/services/catalog.service.ts:229-240 | A blank term returns the input. Otherwise the result is exactly the products whose lower-cased title, description or category contains the lower-cased term, each with its multiplicity, in input order. |
| `CatalogService.FilterProductsByPrice` | src/app/services/catalog.service.ts:245-249 | The result is exactly the products priced in the closed range, each with its multiplicity, in input order. |
| `CatalogService.ProductOrderIsPreorder` | src/app/services/catalog.service.ts:255-271 | For every key and direction the comparator is a total preorder, so the sort is well defined. |
| `CatalogService.SortProducts` | src/app/services/catalog.service.ts:254-272 | The result is a permutation of the input. It is ordered by price, rate or title, ascending for "asc" and descending for any other direction. An unknown key leaves the order unchanged. |
| `CatalogComponent.DefaultFilters` | src/app/components/catalog/catalog.component.ts:788-791 | The initial filters are an empty search, no category, the range [0, 2000] and sorting by name. |
| `CatalogComponent.NarrowSpec` | src/app/components/catalog/catalog.component.ts:884-906 | The three filter stages keep exactly the items that pass the search, category and price conditions together, with their multiplicities. |
| `CatalogComponent.NarrowOfPassing` | src/app/components/catalog/catalog.component.ts:884-906 | A list whose items all pass goes through the filter stages unchanged. |
| `CatalogComponent.ItemOrderIsPreorder` | src/app/components/catalog/catalog.component.ts:909-919 | The page's comparator is a total preorder for every key. |
| `CatalogComponent.Query` | src/app/components/catalog/catalog.component.ts:881-921 | The displayed list is a permutation of exactly the passing items. It is sorted by price ascending, rating descending, or title for "name" and any other key. |
| `CatalogComponent.QueryIdempotent` | src/app/components/catalog/catalog.component.ts:881-921 | Filtering and sorting the displayed list again with the same filters changes nothing. |
| `CatalogComponent.ApplyFilters` | src/app/components/catalog/catalog.component.ts:881-922 | Only the displayed list changes. It is a permutation of exactly the catalog items that pass the filters, each with its multiplicity. It is sorted by price ascending, rating descending, or title for "name" and any other key. |
| `CatalogComponent.ApplyFiltersForgetsPrevious` | src/app/components/catalog/catalog.component.ts:881-882 | The new list depends only on the items and the filters, not on the list shown before. |
| `CatalogComponent.ClearFilters` | src/app/components/catalog/catalog.component.ts:927-933 | The filters return to their defaults. The display shows, in title order, exactly the items priced within [0, 2000]. |
| `CatalogComponent.ClearFiltersShowsBuiltInCatalog` | src/app/components/catalog/catalog.component.ts:927-933 | After a reset, the six built-in products are all displayed. |
| `CatalogComponent.SearchWithoutMatchIsEmpty` | src/app/components/catalog/catalog.component.ts:885-893 | A non-blank search that no item matches empties the display. |
| `CatalogComponent.SearchFindsCaseVariedTitle` | src/app/components/catalog/catalog.component.ts:885-893 | An item whose title contains a string that differs from the search term only in ASCII letter case stays displayed, if it passes the category and price filters. |
| `CatalogComponent.SearchAgreesWithService` | src/app/components/catalog/catalog.component.ts:885-893 | The page's search stage and the service's `searchProducts` select the same items. |
| `CatalogComponent.PriceFilterAgreesWithService` | src/app/components/catalog/catalog.component.ts:903-906 | The page's price stage and the service's `filterProductsByPrice` select the same items. |
| `CatalogComponent.ToggleFlipbookView` | src/app/components/catalog/catalog.component.ts:938-940 | Switching the view inverts the flag and changes nothing else. |
| `CatalogComponent.ToggleFlipbookViewTwice` | src/app/components/catalog/catalog.component.ts:938-940 | Switching the view twice restores the state. |
| `CatalogComponent.ToggleImageFormat` | src/app/components/catalog/catalog.component.ts:945-965 | Only an authenticated user switches the image format. Otherwise the state is unchanged. |
| `CatalogComponent.ToggleImageFormatTwice` | src/app/components/catalog/catalog.component.ts:945-965 | Toggling the image format twice restores the state. |
| `CatalogComponent.GridCols` | src/app/components/catalog/catalog.component.ts:970-976 | There are between one and four columns: one, plus one per breakpoint (768, 1200, 1600) the width reaches. |
| `CatalogComponent.GridColsMonotone` | src/app/components/catalog/catalog.component.ts:970-976 | A wider window never gets fewer columns. |
| `CatalogComponent.TrackByIsProductId` | src/app/components/catalog/catalog.component.ts:981-983 | The tracking key of a normalised item is its product's id, whatever the index. |
| `CatalogComponent.TrackBySurvivesInlining` | src/app/components/catalog/catalog.component.ts:981-983 | Inlining images does not change any item's tracking key. |
| `Flipbook.Created` | src/app/components/flipbook/flipbook.component.ts:531-538 | The component starts with its bound inputs, no pages, index 0 and no current page. |
| `Flipbook.UpdateCurrentPage` | src/app/components/flipbook/flipbook.component.ts:581-583 | The current page is the page at the index, or none when the index is out of range. Nothing else changes. |
| `Flipbook.UpdateCurrentPageStable` | src/app/components/flipbook/flipbook.component.ts:581-583 | In a valid state, looking the current page up again changes nothing. |
| `Flipbook.BuildPages` | src/app/components/flipbook/flipbook.component.ts:558-571 | The two-step loop builds exactly the pages of the service's `generateFlipbookPages`. |
| `Flipbook.Regenerate` | src/app/components/flipbook/flipbook.component.ts:558-576 | The pages are rebuilt and read back as the items. The view returns to page 0, which is current exactly when there are items. |
| `Flipbook.NgOnInit` | src/app/components/flipbook/flipbook.component.ts:540-542 | Initialisation builds exactly the service's pairing of the items, which reads back as the items. It yields a valid state at page 0, with a current page exactly when there are items. The items, the image format and the notifications are unchanged. |
| `Flipbook.NgOnChanges` | src/app/components/flipbook/flipbook.component.ts:544-553 | New non-empty items rebuild the pages at index 0. Otherwise pages and index stay. The new inputs are bound, nothing is emitted and validity is kept. |
| `Flipbook.EmptiedItemsLeaveStalePages` | src/app/components/flipbook/flipbook.component.ts:544-547 | When the items are emptied, the previous pages stay on display. |
| `Flipbook.FlipPage` | src/app/components/flipbook/flipbook.component.ts:601-605 | Flipping turns over only the current page. Without a current page nothing changes. |
| `Flipbook.FlipPageTwice` | src/app/components/flipbook/flipbook.component.ts:601-605 | Flipping twice restores the state. |
| `Flipbook.ResetCurrentPageFlip` | src/app/components/flipbook/flipbook.component.ts:653-657 | The current page shows its front, and every other page is unchanged. |
| `Flipbook.ResetFlip` | src/app/components/flipbook/flipbook.component.ts:646-657 | After a reset the current page shows its front and keeps its number, front and back. Other pages are unchanged and validity is kept. |
| `Flipbook.ResetFlipAbsorbs` | src/app/components/flipbook/flipbook.component.ts:646-657 | A reset is idempotent and undoes a preceding flip. |
| `Flipbook.PreviousPage` | src/app/components/flipbook/flipbook.component.ts:610-617 | From any page but the first, it moves one page back, shows that page's front and emits its index once. On the first page nothing changes and nothing is emitted. |
| `Flipbook.NextPage` | src/app/components/flipbook/flipbook.component.ts:622-629 | From any page but the last, it moves one page on, shows that page's front and emits its index once. On the last page nothing changes and nothing is emitted. |
| `Flipbook.GoToPage` | src/app/components/flipbook/flipbook.component.ts:634-641 | A position among the pages becomes current, shows its front and is emitted once. Any other number is ignored. |
| `Flipbook.GoToNeighbourIsStep` | src/app/components/flipbook/flipbook.component.ts:610-641 | Going to the neighbouring page is the same as stepping to it. |
| `Flipbook.NextThenPrevious` | src/app/components/flipbook/flipbook.component.ts:610-629 | Stepping forward then back returns to the same page, emits both moves in order and leaves both pages unflipped. |
| `Flipbook.GetImageSource` | src/app/components/flipbook/flipbook.component.ts:588-596 | No item gives the empty string. With inlined images on and a non-empty inlined image, that image is shown. Otherwise the URL is shown. |
| `Flipbook.CachedImageShown` | src/app/components/flipbook/flipbook.component.ts:588-596 | With inlined images on, an item served from the image cache shows the cached data. |
| `Flipbook.NormalisedItemShowsUrl` | src/app/components/flipbook/flipbook.component.ts:588-596 | A freshly normalised item always shows its image URL. |
| `Flipbook.ToggleImageFormat` | src/app/components/flipbook/flipbook.component.ts:662-664 | The flipbook's image-format switch inverts the flag and changes nothing else. |
| `Flipbook.ToggleImageFormatTwice` | src/app/components/flipbook/flipbook.component.ts:662-664 | Toggling the flipbook's image format twice restores the state. |

## Left out

- HTTP, `localStorage` and JSON are not modelled. Responses and stored values are `Option` parameters, and a stored JSON value is assumed to read back as what was written. Corrupt stored JSON, whose parse throws inside the error handler, is not modelled.
- `convertImageToBase64` (`fetch`, `FileReader`) is not modelled. Its per-item result is an input.
- Concurrency is not modelled. Conversions for the same id write the cache in item order, not in completion order.
- `CatalogService.GetProducts`: the storage write is assumed to succeed. In the source, a `localStorage.setItem` that throws (quota exceeded, storage blocked) inside the `tap` at catalog.service.ts:23-26 reaches `catchError`. The source then returns the stored or built-in list even after a successful fetch, and an exception from reading storage inside that handler reaches the subscriber. The model does not cover these paths.
- `CatalogService.StoreImagesAsBase64`: the cache write is assumed to succeed. In the source, a `setItem` that throws at catalog.service.ts:151 errors the whole observable. Nothing is then saved and the caller's error branch runs. The model does not cover this path, so `StoreImagesCacheKeys` and `StoreImagesCacheValues` describe the cache only when the write succeeds.
- `CatalogService.StoreImagesAsBase64`: the source updates the caller's item objects in place, while the model returns new items.
- `CatalogService.StoreImagesAsBase64`: `forkJoin` over an empty list completes without emitting. The model returns the empty list.
- `Text.ToLower` changes ASCII letters only, and `Text.LocaleCompare` is code-point lexicographic order. Full Unicode case mapping and locale collation are not modelled.
- `CatalogService.SortProducts`: the contract states permutation and order but not the order of items with equal keys. The model's sort is stable, but that is not stated as a property. The in-place mutation of the argument array, which `sort` also returns, is not modelled, and neither is the default `order = 'asc'`: the model has no default, and `sortProducts(p, k)` is `SortProducts(p, k, "asc")`.
- `CatalogComponent.Query`: likewise, the order of items with equal keys is not stated.
- Prices, rates and widths are exact reals or integers. NaN, infinities and fractional window widths are not modelled.
- Authentication, the login page, the HTTP interceptor, the route guards and routing are not part of this model; only the boolean "is authenticated" enters as a parameter.
- `loadCatalogData`, `loadUserData`, `downloadCatalog`, `viewProduct`, `onImageError`, `onFlipbookPageChanged`, `addToCart`, `refreshCatalog`, `selectItem`, `logout` and the snackbar messages are not modelled. They are I/O or glue around the modelled operations.
- Templates, styles and change detection are not modelled. The lifecycle hooks are called explicitly with the inputs that changed.
