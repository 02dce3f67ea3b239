/** The catalog service (src/app/services/catalog.service.ts): normalising
    remote products, pairing items into flipbook pages, merging inlined
    images with the image cache, the network-then-storage-then-built-in
    fallback chain, and the standalone search, price filter and sort.
    Every network or storage read is an `Option` input: `None` is a failed
    request or an absent storage key. */
module CatalogService {
  import opened Wrappers
  import opened Models
  import opened Text
  import Seqs
  import Sorting

  // ---------------------------------------------------------------------
  // Normalisation
  // ---------------------------------------------------------------------

  function ToCatalogItem(p: Product): CatalogItem {
    CatalogItem(p.id, p.title, p.description, p.image, None, p.category, p.price, p.rating.rate)
  }

  /** One catalog item per product, in the same order, carrying the
      product's own fields, the rate as its rating and no inlined image. */
  function ConvertProductsToCatalogItems(products: seq<Product>): (items: seq<CatalogItem>)
    ensures |items| == |products|
    ensures forall i :: 0 <= i < |products| ==>
      && items[i].id == products[i].id
      && items[i].title == products[i].title
      && items[i].description == products[i].description
      && items[i].image == products[i].image
      && items[i].category == products[i].category
      && items[i].price == products[i].price
      && items[i].rating == products[i].rating.rate
      && items[i].imageBase64 == None
  {
    Seqs.Map(products, ToCatalogItem)
  }

  /** Normalisation is item-by-item, so it distributes over concatenation:
      no product is skipped, merged or reordered. */
  lemma ConvertAppend(a: seq<Product>, b: seq<Product>)
    ensures ConvertProductsToCatalogItems(a + b)
         == ConvertProductsToCatalogItems(a) + ConvertProductsToCatalogItems(b)
  {
    var l := ConvertProductsToCatalogItems(a + b);
    var r := ConvertProductsToCatalogItems(a) + ConvertProductsToCatalogItems(b);
    forall i | 0 <= i < |l| ensures l[i] == r[i] {
      if i < |a| {
        assert (a + b)[i] == a[i];
      } else {
        assert (a + b)[i] == b[i - |a|];
      }
    }
  }

  // ---------------------------------------------------------------------
  // Flipbook pages
  // ---------------------------------------------------------------------

  /** The pages built from position `i` onwards, two items per page; `i`
      is the even loop counter of the source. */
  function PagesFrom(items: seq<CatalogItem>, i: nat): (pages: seq<FlipbookPage>)
    requires i % 2 == 0
    ensures |pages| == if i < |items| then (|items| - i + 1) / 2 else 0
    ensures forall k :: 0 <= k < |pages| ==>
      && i + 2 * k < |items|
      && pages[k].id == i / 2 + k + 1
      && pages[k].frontContent == items[i + 2 * k]
      && pages[k].backContent == (if i + 2 * k + 1 < |items| then Some(items[i + 2 * k + 1]) else None)
      && !pages[k].isFlipped
    decreases |items| - i
  {
    if i >= |items| then []
    else
      var back := if i + 1 < |items| then Some(items[i + 1]) else None;
      [FlipbookPage(i / 2 + 1, items[i], back, false)] + PagesFrom(items, i + 2)
  }

  /** `generateFlipbookPages`: ceil(n/2) unflipped pages numbered from 1;
      page k holds items 2k and 2k+1, and only the last page of an odd
      catalog lacks a back. */
  function GenerateFlipbookPages(items: seq<CatalogItem>): (pages: seq<FlipbookPage>)
    ensures |pages| == (|items| + 1) / 2
    ensures pages == [] <==> items == []
    ensures forall k :: 0 <= k < |pages| ==>
      && pages[k].id == k + 1
      && pages[k].frontContent == items[2 * k]
      && !pages[k].isFlipped
    ensures forall k :: 0 <= k < |pages| ==>
      (pages[k].backContent.Some? <==> 2 * k + 1 < |items|)
      && (2 * k + 1 < |items| ==> pages[k].backContent == Some(items[2 * k + 1]))
  {
    PagesFrom(items, 0)
  }

  /** The items shown on one page, front first. */
  function PageItems(page: FlipbookPage): seq<CatalogItem> {
    [page.frontContent] + (if page.backContent.Some? then [page.backContent.value] else [])
  }

  /** Reading the pages front, back, front, back, ... */
  function Unpair(pages: seq<FlipbookPage>): seq<CatalogItem>
    decreases |pages|
  {
    if |pages| == 0 then [] else PageItems(pages[0]) + Unpair(pages[1..])
  }

  /** The items on the first page built from position `i`, and the pages
      after it. */
  lemma FirstPageFrom(items: seq<CatalogItem>, i: nat)
    requires i % 2 == 0 && i < |items|
    ensures var pages := PagesFrom(items, i);
      && PageItems(pages[0]) == items[i..if i + 2 <= |items| then i + 2 else |items|]
      && pages[1..] == PagesFrom(items, i + 2)
  {
  }

  lemma {:induction false} UnpairPagesFrom(items: seq<CatalogItem>, i: nat)
    requires i % 2 == 0
    ensures Unpair(PagesFrom(items, i)) == if i < |items| then items[i..] else []
    decreases |items| - i
  {
    if i < |items| {
      UnpairPagesFrom(items, i + 2);
      FirstPageFrom(items, i);
      var m := if i + 2 <= |items| then i + 2 else |items|;
      assert items[i..] == items[i..m] + items[m..];
      assert Unpair(PagesFrom(items, i + 2)) == items[m..];
    }
  }

  /** Pairing loses nothing and invents nothing: reading the pages in order
      gives back the catalog. */
  lemma PagesRoundTrip(items: seq<CatalogItem>)
    ensures Unpair(GenerateFlipbookPages(items)) == items
  {
    UnpairPagesFrom(items, 0);
  }

  // ---------------------------------------------------------------------
  // Inlined images
  // ---------------------------------------------------------------------

  /** A cache entry the code uses: present and truthy (not the empty string). */
  predicate IsCached(stored: map<int, string>, id: int) {
    id in stored && stored[id] != ""
  }

  /** Item `i` was not served from the cache and its conversion succeeded. */
  predicate Converted(items: seq<CatalogItem>, stored: map<int, string>, outcomes: seq<Option<string>>, i: int)
    requires |outcomes| == |items|
  {
    0 <= i < |items| && !IsCached(stored, items[i].id) && outcomes[i].Some?
  }

  /** No successful conversion was for product `id`. */
  predicate NeverConverted(items: seq<CatalogItem>, stored: map<int, string>, outcomes: seq<Option<string>>, id: int)
    requires |outcomes| == |items|
  {
    forall i :: 0 <= i < |items| && Converted(items, stored, outcomes, i) ==> items[i].id != id
  }

  /** Item `i` is the last successful conversion for its product id. */
  predicate LastWriter(items: seq<CatalogItem>, stored: map<int, string>, outcomes: seq<Option<string>>, i: int)
    requires |outcomes| == |items|
  {
    && Converted(items, stored, outcomes, i)
    && forall j :: i < j < |items| && Converted(items, stored, outcomes, j) ==> items[j].id != items[i].id
  }

  datatype ImageStore = ImageStore(items: seq<CatalogItem>, cache: map<int, string>)

  /** `storeImagesAsBase64`. `stored` is the cache read at the start and
      `outcomes[i]` is what converting item i's image would give (`None`:
      the conversion failed). Every cache look-up happens before any
      conversion resolves, so look-ups see only `stored`; successful
      conversions are written in item order, so for each id the cache ends
      with the previous value or the last successful conversion. */
  function StoreImagesAsBase64(items: seq<CatalogItem>, stored: map<int, string>, outcomes: seq<Option<string>>): (r: ImageStore)
    requires |outcomes| == |items|
    ensures |r.items| == |items|
    ensures forall i :: 0 <= i < |items| ==> r.items[i] == items[i].(imageBase64 := r.items[i].imageBase64)
    ensures forall i :: 0 <= i < |items| && IsCached(stored, items[i].id) ==>
      r.items[i].imageBase64 == Some(stored[items[i].id])
    ensures forall i :: Converted(items, stored, outcomes, i) ==> r.items[i].imageBase64 == outcomes[i]
    ensures forall i :: 0 <= i < |items| && !IsCached(stored, items[i].id) && outcomes[i].None? ==>
      r.items[i] == items[i]
    decreases |items|
  {
    if |items| == 0 then ImageStore([], stored)
    else
      var n := |items| - 1;
      var rest := StoreImagesAsBase64(items[..n], stored, outcomes[..n]);
      var item := items[n];
      if IsCached(stored, item.id) then
        ImageStore(rest.items + [item.(imageBase64 := Some(stored[item.id]))], rest.cache)
      else if outcomes[n].Some? then
        ImageStore(rest.items + [item.(imageBase64 := outcomes[n])], rest.cache[item.id := outcomes[n].value])
      else
        ImageStore(rest.items + [item], rest.cache)
  }

  /** The ids of the items whose conversion succeeded. */
  function ConvertedIds(items: seq<CatalogItem>, stored: map<int, string>, outcomes: seq<Option<string>>): set<int>
    requires |outcomes| == |items|
  {
    set i | 0 <= i < |items| && Converted(items, stored, outcomes, i) :: items[i].id
  }

  /** The converted ids of a list are those of its prefix plus, when the
      last item was converted, that item's id. */
  lemma ConvertedIdsSnoc(items: seq<CatalogItem>, stored: map<int, string>, outcomes: seq<Option<string>>)
    requires |outcomes| == |items| > 0
    ensures var n := |items| - 1;
      ConvertedIds(items, stored, outcomes)
      == ConvertedIds(items[..n], stored, outcomes[..n])
         + (if Converted(items, stored, outcomes, n) then {items[n].id} else {})
  {
    var n := |items| - 1;
    var pi, po := items[..n], outcomes[..n];
    var all, prefix := ConvertedIds(items, stored, outcomes), ConvertedIds(pi, stored, po);
    var last := if Converted(items, stored, outcomes, n) then {items[n].id} else {};
    forall x | x in all ensures x in prefix + last {
      var i :| 0 <= i < |items| && Converted(items, stored, outcomes, i) && items[i].id == x;
      if i < n {
        assert pi[i] == items[i] && Converted(pi, stored, po, i);
      }
    }
    forall x | x in prefix ensures x in all {
      var i :| 0 <= i < |pi| && Converted(pi, stored, po, i) && pi[i].id == x;
      assert items[i] == pi[i] && Converted(items, stored, outcomes, i);
    }
  }

  /** The cache keeps every key it had and gains exactly the ids of the
      successful conversions. */
  lemma {:induction false} StoreImagesCacheKeys(items: seq<CatalogItem>, stored: map<int, string>, outcomes: seq<Option<string>>)
    requires |outcomes| == |items|
    ensures StoreImagesAsBase64(items, stored, outcomes).cache.Keys == stored.Keys + ConvertedIds(items, stored, outcomes)
    decreases |items|
  {
    if |items| > 0 {
      var n := |items| - 1;
      var pi, po := items[..n], outcomes[..n];
      StoreImagesCacheKeys(pi, stored, po);
      ConvertedIdsSnoc(items, stored, outcomes);
      var rest := StoreImagesAsBase64(pi, stored, po).cache;
      var cache := StoreImagesAsBase64(items, stored, outcomes).cache;
      if Converted(items, stored, outcomes, n) {
        assert cache == rest[items[n].id := outcomes[n].value];
      } else {
        assert cache == rest;
      }
    }
  }

  /** A truthy entry is never overwritten, an id nobody converted keeps its
      value, and a converted id ends with its last successful conversion. */
  lemma {:induction false} StoreImagesCacheValues(items: seq<CatalogItem>, stored: map<int, string>, outcomes: seq<Option<string>>)
    requires |outcomes| == |items|
    ensures var cache := StoreImagesAsBase64(items, stored, outcomes).cache;
      && (forall id :: IsCached(stored, id) ==> id in cache && cache[id] == stored[id])
      && (forall id :: id in stored && NeverConverted(items, stored, outcomes, id) ==> id in cache && cache[id] == stored[id])
      && (forall i :: LastWriter(items, stored, outcomes, i) ==> items[i].id in cache && cache[items[i].id] == outcomes[i].value)
    decreases |items|
  {
    if |items| > 0 {
      var n := |items| - 1;
      var pi, po := items[..n], outcomes[..n];
      StoreImagesCacheValues(pi, stored, po);
      var rest := StoreImagesAsBase64(pi, stored, po).cache;
      var cache := StoreImagesAsBase64(items, stored, outcomes).cache;
      assert forall i :: Converted(pi, stored, po, i) <==> i < n && Converted(items, stored, outcomes, i);
      forall id | id in stored && NeverConverted(items, stored, outcomes, id)
        ensures NeverConverted(pi, stored, po, id)
      {
      }
      if Converted(items, stored, outcomes, n) {
        assert cache == rest[items[n].id := outcomes[n].value];
        forall i | LastWriter(items, stored, outcomes, i)
          ensures items[i].id in cache && cache[items[i].id] == outcomes[i].value
        {
          if i < n {
            assert LastWriter(pi, stored, po, i);
          }
        }
      } else {
        assert cache == rest;
        forall i | LastWriter(items, stored, outcomes, i)
          ensures items[i].id in cache && cache[items[i].id] == outcomes[i].value
        {
          assert LastWriter(pi, stored, po, i);
        }
      }
    }
  }

  /** Ids name products uniquely. */
  predicate DistinctIds(items: seq<CatalogItem>) {
    forall i, j :: 0 <= i < j < |items| ==> items[i].id != items[j].id
  }

  /** What the cache buys: with distinct ids and non-empty conversions, a
      second run over the same items against the updated cache, with every
      conversion failing this time, yields exactly the items of the first. */
  lemma {:induction false} ReplayFromCache(items: seq<CatalogItem>, stored: map<int, string>, outcomes: seq<Option<string>>, failures: seq<Option<string>>)
    requires |outcomes| == |items| && |failures| == |items|
    requires DistinctIds(items)
    requires forall i :: 0 <= i < |items| ==> outcomes[i] != Some("")
    requires forall i :: 0 <= i < |items| ==> failures[i] == None
    ensures StoreImagesAsBase64(items, StoreImagesAsBase64(items, stored, outcomes).cache, failures).items
         == StoreImagesAsBase64(items, stored, outcomes).items
  {
    var first := StoreImagesAsBase64(items, stored, outcomes);
    var second := StoreImagesAsBase64(items, first.cache, failures);
    forall i | 0 <= i < |items| ensures second.items[i] == first.items[i] {
      ReplayItem(items, stored, outcomes, failures, i);
    }
  }

  /** One item of `ReplayFromCache`: an item that was cached or converted
      finds its value in the saved cache; any other item has no truthy
      entry there and stays as it is. */
  lemma ReplayItem(items: seq<CatalogItem>, stored: map<int, string>, outcomes: seq<Option<string>>, failures: seq<Option<string>>, i: int)
    requires |outcomes| == |items| && |failures| == |items| && 0 <= i < |items|
    requires DistinctIds(items)
    requires outcomes[i] != Some("") && failures[i] == None
    ensures StoreImagesAsBase64(items, StoreImagesAsBase64(items, stored, outcomes).cache, failures).items[i]
         == StoreImagesAsBase64(items, stored, outcomes).items[i]
  {
    var first := StoreImagesAsBase64(items, stored, outcomes);
    var id := items[i].id;
    if IsCached(stored, id) {
      StoreImagesCacheValues(items, stored, outcomes);
      assert IsCached(first.cache, id);
    } else if outcomes[i].Some? {
      StoreImagesCacheValues(items, stored, outcomes);
      assert LastWriter(items, stored, outcomes, i);
      assert IsCached(first.cache, id);
    } else {
      StoreImagesCacheKeys(items, stored, outcomes);
      StoreImagesCacheValues(items, stored, outcomes);
      assert NeverConverted(items, stored, outcomes, id);
      assert id !in ConvertedIds(items, stored, outcomes);
      assert !IsCached(first.cache, id);
    }
  }

  // ---------------------------------------------------------------------
  // Fallback chain
  // ---------------------------------------------------------------------

  /** The products a request delivers, and the stored product list after it. */
  datatype Loaded = Loaded(products: seq<Product>, storage: Option<seq<Product>>)

  /** `getProducts`: the fetched list, which is also stored; on failure the
      stored list; with nothing stored, the built-in list. */
  function GetProducts(response: Option<seq<Product>>, storage: Option<seq<Product>>): (r: Loaded)
    ensures response.Some? ==> r.products == response.value && r.storage == response
    ensures response.None? ==> r.storage == storage
    ensures response.None? && storage.Some? ==> r.products == storage.value
    ensures response.None? && storage.None? ==> r.products == MockProducts() && |r.products| == 6
  {
    match response
    case Some(products) => Loaded(products, Some(products))
    case None =>
      match storage
      case Some(products) => Loaded(products, storage)
      case None => Loaded(MockProducts(), storage)
  }

  /** Last-known-good: after a successful fetch, a failing fetch returns
      what the successful one delivered. */
  lemma LastKnownGood(fetched: seq<Product>, storage: Option<seq<Product>>)
    ensures GetProducts(None, GetProducts(Some(fetched), storage).storage).products == fetched
  {
  }

  /** The categories offered when their request fails. */
  function FallbackCategories(): (r: seq<string>)
    ensures |r| == 4
  {
    ["electronics", "jewelery", "men's clothing", "women's clothing"]
  }

  /** `getCategories`: the fetched list, or the fixed four on failure. */
  function GetCategories(response: Option<seq<string>>): (r: seq<string>)
    ensures response.Some? ==> r == response.value
    ensures response.None? ==> r == FallbackCategories() && |r| == 4
  {
    response.GetOr(FallbackCategories())
  }

  predicate InCategory(category: string, p: Product) {
    p.category == category
  }

  /** `getProductsByCategory`: the server's answer, or on failure the
      `getProducts` result (`all`, `storage`) narrowed to exact category
      matches, in order; only that inner `getProducts` touches storage. */
  function GetProductsByCategory(category: string, response: Option<seq<Product>>,
                                 all: Option<seq<Product>>, storage: Option<seq<Product>>): (r: Loaded)
    ensures response.Some? ==> r == Loaded(response.value, storage)
    ensures response.None? ==> r.storage == GetProducts(all, storage).storage
    ensures response.None? ==> forall p :: p in r.products <==>
      p in GetProducts(all, storage).products && p.category == category
    ensures response.None? ==> forall p :: (multiset(r.products)[p] ==
      if p.category == category then multiset(GetProducts(all, storage).products)[p] else 0)
    ensures response.None? ==> Seqs.Subsequence(r.products, GetProducts(all, storage).products)
  {
    match response
    case Some(products) => Loaded(products, storage)
    case None =>
      var fallback := GetProducts(all, storage);
      var keep := p => InCategory(category, p);
      Seqs.FilterSpec(fallback.products, keep);
      Loaded(Seqs.Filter(fallback.products, keep), fallback.storage)
  }

  /** The image address of a stock photo. */
  function PexelsPhoto(photo: string): string {
    "https://" + "images.pexels" + ".com/photos/" + photo + "/pexels-photo-" + photo + ".jpeg"
  }

  /** The built-in products. Long texts are written as concatenations of
      short pieces, which keeps the verifier's work on them small. */
  function MockProducts(): (r: seq<Product>)
    ensures |r| == 6
  {
    [
      Product(1, "Laptop " + "Empresarial " + "Dell OptiPlex", 899.99,
        "Laptop " + "empresarial " + "de alta gama " + "con " + "procesador " + "Intel Core " + "i7, 16GB RAM " + "y SSD de " + "512GB. Ideal " + "para " + "profesionales " + "y empresas.",
        "electronics", PexelsPhoto("205421"), Rating(4.5, 120)),
      Product(2, "Sistema de " + "Videoconferencias " + "HD", 1299.99,
        "Sistema " + "completo de " + "videoconferencias " + "con c\U{E1}mara " + "4K, micr\U{F3}fono " + "direccional y " + "altavoces de " + "alta calidad.",
        "electronics", PexelsPhoto("4226140"), Rating(4.8, 89)),
      Product(3, "Impresora " + "Multifunci\U{F3}n " + "L\U{E1}ser", 299.99,
        "Impresora " + "l\U{E1}ser " + "multifunci\U{F3}n " + "con esc\U{E1}ner, " + "copiadora y " + "conexi\U{F3}n " + "WiFi. " + "Perfecta para " + "oficinas " + "peque\U{F1}as y " + "medianas.",
        "electronics", PexelsPhoto("4439901"), Rating(4.3, 156)),
      Product(4, "Software de " + "Gesti\U{F3}n " + "Empresarial", 1999.99,
        "Suite " + "completa de " + "software para " + "gesti\U{F3}n " + "empresarial: " + "CRM, ERP, " + "contabilidad " + "y recursos " + "humanos.",
        "software", PexelsPhoto("590020"), Rating(4.7, 78)),
      Product(5, "Servicio de " + "Consultor\U{ED}a IT", 150.00,
        "Servicios " + "profesionales " + "de " + "consultor\U{ED}a " + "en tecnolog\U{ED}a " + "de la " + "informaci\U{F3}n " + "para " + "optimizar sus " + "procesos " + "empresariales.",
        "services", PexelsPhoto("3184465"), Rating(4.9, 45)),
      Product(6, "Router " + "Empresarial " + "Cisco", 549.99,
        "Router " + "empresarial " + "de alta " + "velocidad con " + "m\U{FA}ltiples " + "puertos " + "Ethernet y " + "tecnolog\U{ED}a " + "WiFi 6.",
        "electronics", PexelsPhoto("4218883"), Rating(4.4, 203))
    ]
  }

  /** The built-in list is non-empty, numbered 1..6 (so the ids are
      distinct), priced within the catalog's default price range [0, 2000]
      and rated within [0, 5]. */
  lemma MockProductsWellFormed()
    ensures var m := MockProducts();
      && |m| == 6
      && (forall i :: 0 <= i < |m| ==> m[i].id == i + 1)
      && (forall i, j :: 0 <= i < j < |m| ==> m[i].id != m[j].id)
      && (forall i :: 0 <= i < |m| ==> 0.0 <= m[i].price <= 2000.0)
      && (forall i :: 0 <= i < |m| ==> 0.0 <= m[i].rating.rate <= 5.0 && m[i].rating.count >= 0)
  {
  }

  /** With the network down and nothing stored, the category fallback still
      yields the built-in electronics: ids 1, 2, 3 and 6. */
  lemma OfflineElectronics()
    ensures var r := GetProductsByCategory("electronics", None, None, None);
      && |r.products| == 4
      && r.products[0].id == 1 && r.products[1].id == 2
      && r.products[2].id == 3 && r.products[3].id == 6
  {
  }

  // ---------------------------------------------------------------------
  // Standalone search, price filter and sort
  // ---------------------------------------------------------------------

  predicate ProductMatches(term: string, p: Product) {
    FieldsMatch(term, p.title, p.description, p.category)
  }

  function ProductSearch(term: string): Product -> bool {
    p => ProductMatches(term, p)
  }

  /** `searchProducts`: a blank term returns the input; otherwise the
      products whose lower-cased title, description or category contains
      the lower-cased (untrimmed) term, in input order. */
  function SearchProducts(searchTerm: string, products: seq<Product>): (r: seq<Product>)
    ensures IsBlank(searchTerm) ==> r == products
    ensures !IsBlank(searchTerm) ==> forall p :: p in r <==>
      p in products && ProductMatches(ToLower(searchTerm), p)
    ensures !IsBlank(searchTerm) ==> forall p :: (multiset(r)[p] ==
      if ProductMatches(ToLower(searchTerm), p) then multiset(products)[p] else 0)
    ensures Seqs.Subsequence(r, products)
  {
    if Trim(searchTerm) == [] then
      Seqs.FilterSpec(products, _ => true);
      products
    else
      Seqs.FilterSpec(products, ProductSearch(ToLower(searchTerm)));
      Seqs.Filter(products, ProductSearch(ToLower(searchTerm)))
  }

  function PriceWithin(minPrice: real, maxPrice: real): Product -> bool {
    (p: Product) => p.price >= minPrice && p.price <= maxPrice
  }

  /** `filterProductsByPrice`: exactly the products priced in the closed
      range [minPrice, maxPrice], in input order. */
  function FilterProductsByPrice(products: seq<Product>, minPrice: real, maxPrice: real): (r: seq<Product>)
    ensures forall p :: p in r <==> p in products && minPrice <= p.price <= maxPrice
    ensures forall p :: multiset(r)[p] == if minPrice <= p.price <= maxPrice then multiset(products)[p] else 0
    ensures Seqs.Subsequence(r, products)
  {
    Seqs.FilterSpec(products, PriceWithin(minPrice, maxPrice));
    Seqs.Filter(products, PriceWithin(minPrice, maxPrice))
  }

  /** The comparator of `sortProducts` before the direction is applied;
      an unknown key compares everything as equal. */
  function Comparison(sortBy: string, a: Product, b: Product): real {
    if sortBy == "price" then a.price - b.price
    else if sortBy == "rating" then a.rating.rate - b.rating.rate
    else if sortBy == "name" then LocaleCompare(a.title, b.title) as real
    else 0.0
  }

  /** `a` may precede `b`: the directed comparison is not positive; any
      order other than "asc" negates it. */
  function ProductOrder(sortBy: string, order: string): (Product, Product) -> bool {
    (a, b) => (if order == "asc" then Comparison(sortBy, a, b) else -Comparison(sortBy, a, b)) <= 0.0
  }

  lemma ProductOrderIsPreorder(sortBy: string, order: string)
    ensures Sorting.TotalPreorder(ProductOrder(sortBy, order))
  {
    var le := ProductOrder(sortBy, order);
    forall a, b ensures le(a, b) || le(b, a) {
      LexLeIsTotalOrder(a.title, b.title);
    }
    forall a, b, c | le(a, b) && le(b, c) ensures le(a, c) {
      if sortBy == "name" {
        if order == "asc" {
          LexLeTransitive(a.title, b.title, c.title);
        } else {
          LexLeTransitive(c.title, b.title, a.title);
        }
      }
    }
  }

  /** `sortProducts`: a permutation of the input, ordered by price, rating
      rate or title, ascending for "asc" and descending otherwise; an
      unknown key leaves the input as it is. */
  function SortProducts(products: seq<Product>, sortBy: string, order: string): (r: seq<Product>)
    ensures multiset(r) == multiset(products)
    ensures sortBy == "price" && order == "asc" ==>
      forall i, j :: 0 <= i < j < |r| ==> r[i].price <= r[j].price
    ensures sortBy == "price" && order != "asc" ==>
      forall i, j :: 0 <= i < j < |r| ==> r[i].price >= r[j].price
    ensures sortBy == "rating" && order == "asc" ==>
      forall i, j :: 0 <= i < j < |r| ==> r[i].rating.rate <= r[j].rating.rate
    ensures sortBy == "rating" && order != "asc" ==>
      forall i, j :: 0 <= i < j < |r| ==> r[i].rating.rate >= r[j].rating.rate
    ensures sortBy == "name" && order == "asc" ==>
      forall i, j :: 0 <= i < j < |r| ==> LexLe(r[i].title, r[j].title)
    ensures sortBy == "name" && order != "asc" ==>
      forall i, j :: 0 <= i < j < |r| ==> LexLe(r[j].title, r[i].title)
    ensures sortBy != "price" && sortBy != "rating" && sortBy != "name" ==> r == products
  {
    SortProductsFacts(products, sortBy, order);
    Sorting.Sort(products, ProductOrder(sortBy, order))
  }

  lemma SortProductsFacts(products: seq<Product>, sortBy: string, order: string)
    ensures Sorting.SortedBy(Sorting.Sort(products, ProductOrder(sortBy, order)), ProductOrder(sortBy, order))
    ensures sortBy != "price" && sortBy != "rating" && sortBy != "name" ==>
      Sorting.Sort(products, ProductOrder(sortBy, order)) == products
  {
    ProductOrderIsPreorder(sortBy, order);
    Sorting.SortIsSorted(products, ProductOrder(sortBy, order));
    if sortBy != "price" && sortBy != "rating" && sortBy != "name" {
      Sorting.SortAllEqual(products, ProductOrder(sortBy, order));
    }
  }
}
