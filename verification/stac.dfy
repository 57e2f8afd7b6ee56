/** The catalog client: link walking over STAC Catalog/Collection documents,
    the bounding-box and phase filters, asset selection and the display
    properties of an item (vantor/stac_client.py). Network fetches are
    parameters: a document is handed in already fetched and decoded, or as
    the text of the exception its fetch raised. */
module Stac {
  import opened Wrappers
  import opened Text
  import opened Seqs
  import opened JsonValue

  const CatalogUrl := "https://vantor-opendata.s3.amazonaws.com/events/catalog.json"

  /** One entry of an item's `assets` object. */
  type Asset = map<string, Json>

  /** A STAC Item as the source reads it. A missing `properties` or `assets`
      member reads like an empty object, so those are plain maps; `assets`
      keeps the object's member order, which the GeoTIFF fallback observes.
      `bbox == None` is a missing or null `bbox` member. */
  datatype Item = Item(
    id: Option<string>,
    bbox: Option<seq<real>>,
    properties: map<string, Json>,
    assets: seq<(string, Asset)>)

  /** A query rectangle `(west, south, east, north)` in degrees. */
  datatype BBox = BBox(west: real, south: real, east: real, north: real)

  // ---------------------------------------------------------------------
  // Bounding-box filter
  // ---------------------------------------------------------------------

  /** The per-item test of the bbox filter: an item without a usable bbox
      (missing, empty or shorter than four numbers) is kept; otherwise its
      `[w, s, e, n]` is compared with the query on closed intervals. */
  predicate BboxKeeps(item: Item, q: BBox) {
    match item.bbox
    case None => true
    case Some(b) =>
      |b| < 4 || (b[0] <= q.east && b[2] >= q.west && b[1] <= q.north && b[3] >= q.south)
  }

  function FilterByBbox(items: seq<Item>, q: BBox): (r: seq<Item>)
    ensures IsSubsequence(r, items)
    ensures forall it :: it in r <==> it in items && BboxKeeps(it, q)
    ensures |r| == Count(items, it => BboxKeeps(it, q))
  {
    FilterCount(items, it => BboxKeeps(it, q));
    Filter(items, it => BboxKeeps(it, q))
  }

  /** The point `(x, y)` lies in the closed rectangle. */
  predicate InRect(x: real, y: real, w: real, s: real, e: real, n: real) {
    w <= x <= e && s <= y <= n
  }

  /** For rectangles that do not cross the antimeridian, the four
      comparisons hold exactly when the two closed rectangles share a
      point; touching edges therefore count as intersecting. */
  lemma BboxTestIsClosedIntersection(b: seq<real>, q: BBox)
    requires |b| >= 4 && b[0] <= b[2] && b[1] <= b[3]
    requires q.west <= q.east && q.south <= q.north
    ensures BboxKeeps(Item(None, Some(b), map[], []), q)
        <==> exists x: real, y: real ::
               InRect(x, y, b[0], b[1], b[2], b[3]) && InRect(x, y, q.west, q.south, q.east, q.north)
  {
    if b[0] <= q.east && b[2] >= q.west && b[1] <= q.north && b[3] >= q.south {
      var x := if b[0] >= q.west then b[0] else q.west;
      var y := if b[1] >= q.south then b[1] else q.south;
      assert InRect(x, y, b[0], b[1], b[2], b[3]) && InRect(x, y, q.west, q.south, q.east, q.north);
    }
  }

  /** An item whose east edge lies on the query's west edge is kept. */
  lemma TouchingEdgeKept(q: BBox, s: real, n: real)
    requires q.west <= q.east && s <= q.north && n >= q.south
    ensures BboxKeeps(Item(None, Some([q.west - 1.0, s, q.west, n]), map[], []), q)
  {
  }

  /** No antimeridian handling: a query that wraps (west > east) drops an
      item lying inside its wrapped part. */
  lemma WrappedQueryDropsItem()
    ensures !BboxKeeps(Item(None, Some([175.0, 0.0, 178.0, 1.0]), map[], []), BBox(170.0, -5.0, -170.0, 5.0))
  {
  }

  lemma BboxFilterIdempotent(items: seq<Item>, q: BBox)
    ensures FilterByBbox(FilterByBbox(items, q), q) == FilterByBbox(items, q)
  {
    FilterIdempotent(items, it => BboxKeeps(it, q));
  }

  // ---------------------------------------------------------------------
  // Phase filter
  // ---------------------------------------------------------------------

  /** The comprehension calls `.lower()` on the `phase` property, which
      therefore works only when the property is absent or a string. */
  predicate PhaseIsText(it: Item) {
    "phase" !in it.properties || it.properties["phase"].Str?
  }

  /** `item.get("properties", {}).get("phase", "")`. */
  function ItemPhase(it: Item): string
    requires PhaseIsText(it)
  {
    if "phase" in it.properties then it.properties["phase"].s else ""
  }

  /** The text of the `AttributeError` that `.lower()` raises on a phase
      that is not a string. */
  function LowerError(phase: Json): string {
    "'" + PyTypeName(phase) + "' object has no attribute 'lower'"
  }

  /** Index of the first item whose phase is not a string. */
  function FirstNonTextPhase(items: seq<Item>): (r: Option<nat>)
    ensures r.Some? ==> r.value < |items| && !PhaseIsText(items[r.value])
    ensures r.Some? ==> forall j :: 0 <= j < r.value ==> PhaseIsText(items[j])
    ensures r.None? ==> forall j :: 0 <= j < |items| ==> PhaseIsText(items[j])
  {
    if |items| == 0 then None
    else if !PhaseIsText(items[0]) then Some(0)
    else match FirstNonTextPhase(items[1..])
      case None => None
      case Some(k) => Some(k + 1)
  }

  /** Lower-case, then drop every "-event". */
  function NormalizePhase(s: string): string {
    RemoveAll(Lower(s), "-event")
  }

  /** The per-item test of the phase filter against the normal form `key`. */
  predicate PhaseMatches(it: Item, key: string) {
    PhaseIsText(it) && NormalizePhase(ItemPhase(it)) == key
  }

  /** `filter_items_by_phase`: "all" returns the list untouched; any other
      selector keeps the items whose normalised phase equals its own normal
      form, and the comprehension raises at the first item whose phase is
      not a string. */
  function FilterByPhase(items: seq<Item>, phase: string): (r: Result<seq<Item>, string>)
    ensures phase == "all" ==> r == Success(items)
    ensures phase != "all" ==> (r.Failure? <==> exists it :: it in items && !PhaseIsText(it))
    ensures r.Failure? ==>
      exists k :: && 0 <= k < |items| && !PhaseIsText(items[k])
                  && (forall j :: 0 <= j < k ==> PhaseIsText(items[j]))
                  && r.error == LowerError(items[k].properties["phase"])
    ensures phase != "all" && r.Success? ==> IsSubsequence(r.value, items)
    ensures phase != "all" && r.Success? ==>
      forall it :: it in r.value <==> it in items && PhaseMatches(it, NormalizePhase(phase))
    ensures phase != "all" && r.Success? ==>
      |r.value| == Count(items, it => PhaseMatches(it, NormalizePhase(phase)))
  {
    if phase == "all" then Success(items)
    else
      var key := NormalizePhase(phase);
      match FirstNonTextPhase(items)
      case Some(k) => Failure(LowerError(items[k].properties["phase"]))
      case None =>
        FilterCount(items, it => PhaseMatches(it, key));
        Success(Filter(items, it => PhaseMatches(it, key)))
  }

  lemma PhaseFilterIdempotent(items: seq<Item>, phase: string)
    requires FilterByPhase(items, phase).Success?
    ensures FilterByPhase(FilterByPhase(items, phase).value, phase) == FilterByPhase(items, phase)
  {
    if phase != "all" {
      var key := NormalizePhase(phase);
      var once := Filter(items, it => PhaseMatches(it, key));
      assert FirstNonTextPhase(items).None?;
      assert forall j :: 0 <= j < |once| ==> PhaseIsText(once[j]) by {
        forall j | 0 <= j < |once|
          ensures PhaseIsText(once[j])
        {
          assert once[j] in once;
        }
      }
      FilterIdempotent(items, it => PhaseMatches(it, key));
    }
  }

  /** Selectors with the same normal form select the same items, and fail
      on the same item. */
  lemma SameKeySameSelection(items: seq<Item>, p1: string, p2: string)
    requires p1 != "all" && p2 != "all" && NormalizePhase(p1) == NormalizePhase(p2)
    ensures FilterByPhase(items, p1) == FilterByPhase(items, p2)
  {
  }

  /** "pre-event" and "PRE" both normalise to "pre". */
  lemma PreEventSelectsLikePre(items: seq<Item>)
    ensures FilterByPhase(items, "pre-event") == FilterByPhase(items, "PRE")
  {
    PreEventNormalForm();
    UpperPreNormalForm();
    SameKeySameSelection(items, "pre-event", "PRE");
  }

  lemma PreEventNormalForm()
    ensures NormalizePhase("pre-event") == "pre"
  {
    LowerNoCapitals("pre-event");
    PreEventRemoved();
  }

  lemma PreEventRemoved()
    ensures RemoveAll("pre-event", "-event") == "pre"
  {
    assert RemoveAll("-event", "-event") == "" by {
      assert "-event"[6..] == "";
    }
    assert RemoveAll("e-event", "-event") == "e" by {
      assert "e-event"[1..] == "-event";
      assert !StartsWith("e-event", "-event");
    }
    assert RemoveAll("re-event", "-event") == "re" by {
      assert "re-event"[1..] == "e-event";
      assert !StartsWith("re-event", "-event");
    }
    assert "pre-event"[1..] == "re-event";
    assert !StartsWith("pre-event", "-event");
  }

  lemma UpperPreNormalForm()
    ensures NormalizePhase("PRE") == "pre"
  {
    assert Lower("PRE") == "pre";
    assert RemoveAll("", "-event") == "";
    assert RemoveAll("e", "-event") == "e";
    assert RemoveAll("re", "-event") == "re";
  }

  /** An item without a phase is dropped by every selector whose normal
      form is non-empty. */
  lemma MissingPhaseDropped(items: seq<Item>, phase: string, it: Item)
    requires FilterByPhase(items, phase).Success?
    requires phase != "all" && NormalizePhase(phase) != ""
    requires "phase" !in it.properties
    ensures it !in FilterByPhase(items, phase).value
  {
    assert NormalizePhase(ItemPhase(it)) == "";
  }

  /** A null phase makes a filtering selector raise, whatever else the
      list holds. */
  lemma NullPhaseRaises(items: seq<Item>, phase: string, it: Item)
    requires phase != "all" && it in items
    requires "phase" in it.properties && it.properties["phase"] == Null
    ensures FilterByPhase(items, phase).Failure?
  {
  }

  // ---------------------------------------------------------------------
  // Assets
  // ---------------------------------------------------------------------

  /** Index of the asset stored under `key`. */
  function AssetIndex(assets: seq<(string, Asset)>, key: string): (r: Option<nat>)
    ensures r.Some? ==> r.value < |assets| && assets[r.value].0 == key
    ensures r.Some? ==> forall j :: 0 <= j < r.value ==> assets[j].0 != key
    ensures r.None? ==> forall j :: 0 <= j < |assets| ==> assets[j].0 != key
  {
    if |assets| == 0 then None
    else if assets[0].0 == key then Some(0)
    else match AssetIndex(assets[1..], key)
      case None => None
      case Some(k) => Some(k + 1)
  }

  /** `"geotiff" in t or "tiff" in t` on the asset's `type` member (`""`
      when absent): a substring test on a string, a membership test on a
      list or on an object's keys, and a `TypeError` on any other value. */
  function TiffTest(a: Asset): Result<bool, string> {
    match GetOr(a, "type", Str(""))
    case Str(t) => Success(Contains(t, "geotiff") || Contains(t, "tiff"))
    case Arr(e) => Success(Str("geotiff") in e || Str("tiff") in e)
    case Obj(f) => Success("geotiff" in f || "tiff" in f)
    case other => Failure("argument of type '" + PyTypeName(other) + "' is not iterable")
  }

  /** The asset's media type names TIFF. */
  predicate IsTiffAsset(a: Asset) {
    TiffTest(a) == Success(true)
  }

  /** The fallback loop stops at this asset: it returns its href, or the
      type test raises. */
  predicate StopsScan(a: Asset) {
    TiffTest(a) != Success(false)
  }

  /** Index of the asset at which the fallback loop stops. */
  function FirstStop(assets: seq<(string, Asset)>): (r: Option<nat>)
    ensures r.Some? ==> r.value < |assets| && StopsScan(assets[r.value].1)
    ensures r.Some? ==> forall j :: 0 <= j < r.value ==> !StopsScan(assets[j].1)
    ensures r.None? ==> forall j :: 0 <= j < |assets| ==> !StopsScan(assets[j].1)
  {
    if |assets| == 0 then None
    else if StopsScan(assets[0].1) then Some(0)
    else match FirstStop(assets[1..])
      case None => None
      case Some(k) => Some(k + 1)
  }

  /** A `visual` asset is used when present and non-empty (truthy). */
  predicate HasUsableVisual(it: Item) {
    var v := AssetIndex(it.assets, "visual");
    v.Some? && |it.assets[v.value].1| > 0
  }

  /** `get_cog_url`: the `visual` asset's href, else the href of the first
      TIFF asset, else None; the scan raises when it meets an asset whose
      type cannot be searched before it finds a TIFF one. */
  function CogUrl(it: Item): (r: Result<Option<Json>, string>)
    ensures HasUsableVisual(it) ==>
      r == Success(Get(it.assets[AssetIndex(it.assets, "visual").value].1, "href"))
    ensures !HasUsableVisual(it) ==>
      forall k :: 0 <= k < |it.assets| && StopsScan(it.assets[k].1)
                  && (forall j :: 0 <= j < k ==> !StopsScan(it.assets[j].1))
        ==> r == if IsTiffAsset(it.assets[k].1) then Success(Get(it.assets[k].1, "href"))
                 else Failure(TiffTest(it.assets[k].1).error)
    ensures !HasUsableVisual(it) && (forall k :: 0 <= k < |it.assets| ==> !StopsScan(it.assets[k].1))
      ==> r == Success(None)
  {
    var v := AssetIndex(it.assets, "visual");
    if v.Some? && |it.assets[v.value].1| > 0 then Success(Get(it.assets[v.value].1, "href"))
    else match FirstStop(it.assets)
      case Some(k) =>
        (match TiffTest(it.assets[k].1)
         case Success(_) => Success(Get(it.assets[k].1, "href"))
         case Failure(e) => Failure(e))
      case None => Success(None)
  }

  /** An asset typed as GeoTIFF is found by the TIFF fallback. */
  lemma GeotiffAssetIsTiff(a: Asset)
    requires "type" in a && a["type"].Str? && Contains(a["type"].s, "geotiff")
    ensures IsTiffAsset(a) && Contains(a["type"].s, "tiff")
  {
    GeotiffMentionsTiff(a["type"].s);
  }

  /** Without a `visual` asset, a null `type` met before any TIFF asset
      makes the scan raise instead of reaching the TIFF asset behind it. */
  lemma NullTypeBeforeTiffRaises(h1: string, h2: string)
    ensures CogUrl(Item(None, None, map[], [("a", map["type" := Null, "href" := Str(h1)]),
                                          ("b", map["type" := Str("image/tiff"), "href" := Str(h2)])]))
            == Failure("argument of type 'NoneType' is not iterable")
  {
    var assets := [("a", map["type" := Null, "href" := Str(h1)]),
                   ("b", map["type" := Str("image/tiff"), "href" := Str(h2)])];
    assert AssetIndex(assets, "visual").None?;
    assert GetOr(assets[0].1, "type", Str("")) == Null;
    assert "argument of type '" + PyTypeName(Null) + "' is not iterable"
        == "argument of type 'NoneType' is not iterable";
  }

  /** When every asset's type is absent or a string, the scan never raises. */
  lemma TextTypesNeverRaise(it: Item)
    requires forall k :: 0 <= k < |it.assets| ==>
               "type" !in it.assets[k].1 || it.assets[k].1["type"].Str?
    ensures CogUrl(it).Success?
  {
  }

  /** A `thumbnail` asset is used when present and non-empty (truthy). */
  predicate HasUsableThumbnail(it: Item) {
    var t := AssetIndex(it.assets, "thumbnail");
    t.Some? && |it.assets[t.value].1| > 0
  }

  /** `get_thumbnail_url`. */
  function ThumbnailUrl(it: Item): (r: Option<Json>)
    ensures HasUsableThumbnail(it) ==>
      r == Get(it.assets[AssetIndex(it.assets, "thumbnail").value].1, "href")
    ensures !HasUsableThumbnail(it) ==> r == None
    ensures r.Some? ==> exists k :: 0 <= k < |it.assets| && it.assets[k].0 == "thumbnail"
                          && "href" in it.assets[k].1 && it.assets[k].1["href"] == r.value
  {
    var t := AssetIndex(it.assets, "thumbnail");
    if t.Some? && |it.assets[t.value].1| > 0 then Get(it.assets[t.value].1, "href") else None
  }

  // ---------------------------------------------------------------------
  // Display properties
  // ---------------------------------------------------------------------

  /** The standardised properties shown in the results table. */
  datatype DisplayProps = DisplayProps(
    id: string, datetime: Json, phase: Json, sensor: Json,
    cloudCover: Json, panGsd: Json, msGsd: Json, offNadir: Json)

  /** Value of the first present key among `primary` and `fallback`; a
      present key wins even when its value is null. */
  function Prefer(props: map<string, Json>, primary: string, fallback: string): Json {
    GetOr(props, primary, GetOr(props, fallback, Str("")))
  }

  function ItemProperties(it: Item): (r: DisplayProps)
    ensures r.id == if it.id.Some? then it.id.value else "Unknown"
    ensures "vehicle_name" in it.properties ==> r.sensor == it.properties["vehicle_name"]
    ensures "vehicle_name" !in it.properties && "constellation" in it.properties
      ==> r.sensor == it.properties["constellation"]
    ensures "eo:cloud_cover" in it.properties ==> r.cloudCover == it.properties["eo:cloud_cover"]
    ensures "eo:cloud_cover" !in it.properties && "cloud_cover" in it.properties
      ==> r.cloudCover == it.properties["cloud_cover"]
    ensures "pan_gsd" in it.properties ==> r.panGsd == it.properties["pan_gsd"]
    ensures "pan_gsd" !in it.properties && "panchromatic_gsd" in it.properties
      ==> r.panGsd == it.properties["panchromatic_gsd"]
    ensures "datetime" in it.properties ==> r.datetime == it.properties["datetime"]
    ensures "phase" in it.properties ==> r.phase == it.properties["phase"]
    ensures "multispectral_gsd" in it.properties ==> r.msGsd == it.properties["multispectral_gsd"]
    ensures "view:off_nadir" in it.properties ==> r.offNadir == it.properties["view:off_nadir"]
    ensures "datetime" !in it.properties ==> r.datetime == Str("")
    ensures "phase" !in it.properties ==> r.phase == Str("")
    ensures "multispectral_gsd" !in it.properties ==> r.msGsd == Str("")
    ensures "view:off_nadir" !in it.properties ==> r.offNadir == Str("")
    ensures "vehicle_name" !in it.properties && "constellation" !in it.properties ==> r.sensor == Str("")
    ensures "eo:cloud_cover" !in it.properties && "cloud_cover" !in it.properties ==> r.cloudCover == Str("")
    ensures "pan_gsd" !in it.properties && "panchromatic_gsd" !in it.properties ==> r.panGsd == Str("")
  {
    var p := it.properties;
    DisplayProps(
      it.id.GetOr("Unknown"),
      GetOr(p, "datetime", Str("")),
      GetOr(p, "phase", Str("")),
      Prefer(p, "vehicle_name", "constellation"),
      Prefer(p, "eo:cloud_cover", "cloud_cover"),
      Prefer(p, "pan_gsd", "panchromatic_gsd"),
      GetOr(p, "multispectral_gsd", Str("")),
      GetOr(p, "view:off_nadir", Str("")))
  }

  /** Every displayed property is a value stored in the item or the empty
      string: nothing is invented. */
  lemma DisplayedValuesComeFromItem(it: Item)
    ensures var r := ItemProperties(it);
      forall v :: v in [r.datetime, r.phase, r.sensor, r.cloudCover, r.panGsd, r.msGsd, r.offNadir]
        ==> v in it.properties.Values || v == Str("")
  {
  }

  // ---------------------------------------------------------------------
  // Link walking
  // ---------------------------------------------------------------------

  /** A member of a document's `links` list. `href == None` is a link
      without an `href` member: the source's `link["href"]` raises there. */
  datatype Link = Link(rel: Option<string>, href: Option<string>, title: Option<string>)

  /** A Catalog or Collection document, reduced to its `links`. */
  datatype Document = Document(links: seq<Link>)

  /** One event collection listed by the root catalog. */
  datatype CatalogEntry = CatalogEntry(id: string, title: string, href: string)

  /** The text of the `KeyError` raised by `link["href"]`. */
  const MissingHrefError := "'href'"
  /** The text of the `IndexError` raised by `[-2]` on a one-piece split. */
  const IndexError := "list index out of range"

  /** Absolute `http://` and `https://` hrefs are kept; any other href is
      resolved against `base` by `urljoin`, which is outside this model. */
  function ResolveHref(base: string, href: string, urljoin: (string, string) -> string): (r: string)
    ensures StartsWith(href, "http://") || StartsWith(href, "https://") ==> r == href
  {
    if StartsWith(href, "http://") || StartsWith(href, "https://") then href
    else urljoin(base, href)
  }

  /** `href.rstrip("/").split("/")[-2] if "/" in href else href`. */
  function FallbackName(href: string): Result<string, string> {
    if '/' in href then
      var parts := Split(RStripChar(href, '/'), '/');
      if |parts| >= 2 then Success(parts[|parts| - 2]) else Failure(IndexError)
    else Success(href)
  }

  /** When the fallback name exists it is a single path segment: the
      second-to-last one of the href without its trailing slashes. */
  lemma FallbackNameIsSegment(href: string)
    requires '/' in href && FallbackName(href).Success?
    ensures '/' !in FallbackName(href).value
    ensures var parts := Split(RStripChar(href, '/'), '/');
      |parts| >= 2 && FallbackName(href).value == parts[|parts| - 2]
      && Join(parts, "/") == RStripChar(href, '/')
  {
    SplitJoin(RStripChar(href, '/'), '/');
  }

  predicate IsChild(l: Link) {
    l.rel == Some("child")
  }

  /** A child link the source cannot turn into an entry. */
  predicate ChildFails(l: Link, urljoin: (string, string) -> string) {
    IsChild(l) && (l.href.None? || FallbackName(ResolveHref(CatalogUrl, l.href.value, urljoin)).Failure?)
  }

  /** The entry a well-formed child link becomes: `id` and `title` are the
      link's title, or the fallback name when it has none. */
  predicate EntryOf(e: CatalogEntry, l: Link, urljoin: (string, string) -> string) {
    && l.href.Some?
    && e.href == ResolveHref(CatalogUrl, l.href.value, urljoin)
    && e.id == e.title
    && (l.title.Some? ==> e.title == l.title.value)
    && (l.title.None? ==> FallbackName(e.href) == Success(e.title))
  }

  function CatalogEntries(links: seq<Link>, urljoin: (string, string) -> string)
    : (r: Result<seq<CatalogEntry>, string>)
    ensures r.Failure? <==> exists l :: l in links && ChildFails(l, urljoin)
    ensures r.Success? ==> |r.value| == |Filter(links, IsChild)|
    ensures r.Success? ==>
      forall k :: 0 <= k < |r.value| ==> EntryOf(r.value[k], Filter(links, IsChild)[k], urljoin)
  {
    if |links| == 0 then Success([])
    else
      var l := links[0];
      var rest := CatalogEntries(links[1..], urljoin);
      assert forall x :: x in links <==> x == l || x in links[1..];
      if !IsChild(l) then rest
      else if l.href.None? then Failure(MissingHrefError)
      else
        var href := ResolveHref(CatalogUrl, l.href.value, urljoin);
        match FallbackName(href)
        case Failure(e) => Failure(e)
        case Success(fallback) =>
          var title := l.title.GetOr(fallback);
          match rest
          case Failure(e) => Failure(e)
          case Success(es) => Success([CatalogEntry(title, title, href)] + es)
  }

  /** `fetch_catalog`: `root` is the decoded root catalog, or the text of
      the exception its fetch raised. */
  function FetchCatalog(root: Result<Document, string>, urljoin: (string, string) -> string)
    : (r: Result<seq<CatalogEntry>, string>)
    ensures root.Failure? ==> r == Failure(root.error)
    ensures root.Success? ==> r == CatalogEntries(root.value.links, urljoin)
  {
    match root
    case Failure(e) => Failure(e)
    case Success(d) => CatalogEntries(d.links, urljoin)
  }

  /** The fallback name is computed before the title is consulted, so a
      child link whose href has no second-to-last segment aborts the fetch
      even when it carries a title. */
  lemma TitledLinkStillNeedsSegment(title: string, urljoin: (string, string) -> string)
    ensures CatalogEntries([Link(Some("child"), Some("https://"), Some(title))], urljoin).Failure?
  {
    assert StartsWith("https://", "https://");
    assert RStripChar("https://", '/') == "https:" by {
      assert "https://"[..7] == "https:/";
      assert "https:/"[..6] == "https:";
    }
    assert Split("https:", '/') == ["https:"];
  }

  // ---------------------------------------------------------------------
  // Items of a collection
  // ---------------------------------------------------------------------

  predicate IsItemLink(l: Link) {
    l.rel == Some("item")
  }

  /** `item.get("id", "")`, the de-duplication key. */
  function ItemKey(it: Item): string {
    it.id.GetOr("")
  }

  /** What fetching one link gives: its item document, or None when the
      fetch raises (or the link has no href). */
  function FetchLink(base: string, l: Link, urljoin: (string, string) -> string,
                     fetch: string -> Option<Item>): Option<Item> {
    if l.href.Some? then fetch(ResolveHref(base, l.href.value, urljoin)) else None
  }

  /** The item documents fetched from the item links, in link order; an
      item whose fetch raises (`fetch` gives None) is skipped, while an
      item link without an href aborts the whole walk. */
  function FetchedItems(base: string, links: seq<Link>,
                        urljoin: (string, string) -> string, fetch: string -> Option<Item>)
    : (r: Result<seq<Item>, string>)
    ensures r.Failure? <==> exists l :: l in links && IsItemLink(l) && l.href.None?
    ensures r.Failure? ==> r.error == MissingHrefError
    ensures r.Success? ==>
      r.value == Present(Map(Filter(links, IsItemLink), l => FetchLink(base, l, urljoin, fetch)))
  {
    if |links| == 0 then Success([])
    else
      var l := links[0];
      var rest := FetchedItems(base, links[1..], urljoin, fetch);
      assert forall x :: x in links <==> x == l || x in links[1..];
      if !IsItemLink(l) then rest
      else if l.href.None? then Failure(MissingHrefError)
      else match rest
        case Failure(e) => Failure(e)
        case Success(its) =>
          var f := l => FetchLink(base, l, urljoin, fetch);
          var tail := Filter(links[1..], IsItemLink);
          assert ([l] + tail)[1..] == tail;
          assert Map([l] + tail, f) == [f(l)] + Map(tail, f);
          assert ([f(l)] + Map(tail, f))[1..] == Map(tail, f);
          match fetch(ResolveHref(base, l.href.value, urljoin))
          case None => Success(its)
          case Some(it) => Success([it] + its)
  }

  /** Every item a successful walk fetched is in its result, and nothing
      else is: the result holds exactly the fetched documents. */
  lemma FetchedItemsKeepSuccesses(base: string, links: seq<Link>,
                                  urljoin: (string, string) -> string, fetch: string -> Option<Item>)
    requires FetchedItems(base, links, urljoin, fetch).Success?
    ensures forall it :: it in FetchedItems(base, links, urljoin, fetch).value <==>
      exists l :: l in links && IsItemLink(l) && l.href.Some?
                  && fetch(ResolveHref(base, l.href.value, urljoin)) == Some(it)
  {
    var f := l => FetchLink(base, l, urljoin, fetch);
    var items := Filter(links, IsItemLink);
    var fetched := Map(items, f);
    forall it
      ensures it in FetchedItems(base, links, urljoin, fetch).value <==>
        exists l :: l in links && IsItemLink(l) && l.href.Some?
                    && fetch(ResolveHref(base, l.href.value, urljoin)) == Some(it)
    {
      if Some(it) in fetched {
        var i :| 0 <= i < |fetched| && fetched[i] == Some(it);
        assert items[i] in items;
      }
      if exists l :: l in links && IsItemLink(l) && l.href.Some?
                     && fetch(ResolveHref(base, l.href.value, urljoin)) == Some(it) {
        var l :| l in links && IsItemLink(l) && l.href.Some?
                 && fetch(ResolveHref(base, l.href.value, urljoin)) == Some(it);
        var i :| 0 <= i < |items| && items[i] == l;
        assert fetched[i] == Some(it);
      }
    }
  }

  /** Index of the first item with the given key. */
  function FirstWithKey(items: seq<Item>, key: string): (r: Option<nat>)
    ensures r.Some? ==> r.value < |items| && ItemKey(items[r.value]) == key
    ensures r.Some? ==> forall j :: 0 <= j < r.value ==> ItemKey(items[j]) != key
    ensures r.None? ==> forall j :: 0 <= j < |items| ==> ItemKey(items[j]) != key
  {
    if |items| == 0 then None
    else if ItemKey(items[0]) == key then Some(0)
    else match FirstWithKey(items[1..], key)
      case None => None
      case Some(k) => Some(k + 1)
  }

  /** Keys pairwise distinct. */
  predicate DistinctKeys(items: seq<Item>) {
    forall i, j :: 0 <= i < j < |items| ==> ItemKey(items[i]) != ItemKey(items[j])
  }

  /** The loop over fetched items with the `seen_ids` set: an item is
      appended only when its key has not been seen. */
  function Dedup(items: seq<Item>, seen: set<string>): (r: seq<Item>)
    ensures IsSubsequence(r, items)
    ensures DistinctKeys(r)
    ensures forall x :: x in r ==> x in items && ItemKey(x) !in seen
    decreases |items|
  {
    if |items| == 0 then []
    else
      var it := items[0];
      var key := ItemKey(it);
      if key in seen then Dedup(items[1..], seen)
      else [it] + Dedup(items[1..], seen + {key})
  }

  /** Every key not seen before the loop is represented in its result. */
  lemma {:induction false} DedupCoversKeys(items: seq<Item>, seen: set<string>, x: Item)
    requires x in items && ItemKey(x) !in seen
    ensures exists y :: y in Dedup(items, seen) && ItemKey(y) == ItemKey(x)
    decreases |items|
  {
    var key := ItemKey(items[0]);
    if x == items[0] {
      assert items[0] in Dedup(items, seen);
    } else {
      assert x in items[1..];
      if key in seen {
        DedupCoversKeys(items[1..], seen, x);
      } else if ItemKey(x) == key {
        assert items[0] in Dedup(items, seen);
      } else {
        DedupCoversKeys(items[1..], seen + {key}, x);
        var y :| y in Dedup(items[1..], seen + {key}) && ItemKey(y) == ItemKey(x);
        assert y in Dedup(items, seen);
      }
    }
  }

  /** The item kept for a key is the first item carrying that key. */
  lemma {:induction false} DedupKeepsFirst(items: seq<Item>, seen: set<string>, y: Item)
    requires y in Dedup(items, seen)
    ensures var k := FirstWithKey(items, ItemKey(y)); k.Some? && items[k.value] == y
    decreases |items|
  {
    var it := items[0];
    var key := ItemKey(it);
    if key in seen {
      DedupKeepsFirst(items[1..], seen, y);
      assert FirstWithKey(items, ItemKey(y)).value == FirstWithKey(items[1..], ItemKey(y)).value + 1;
    } else if y != it {
      assert y in Dedup(items[1..], seen + {key});
      DedupKeepsFirst(items[1..], seen + {key}, y);
      assert FirstWithKey(items, ItemKey(y)).value == FirstWithKey(items[1..], ItemKey(y)).value + 1;
    }
  }

  /** `fetch_items`: the collection document (or its fetch error), the
      item-document oracle, and the result list. */
  function FetchItems(collectionUrl: string, collection: Result<Document, string>,
                      urljoin: (string, string) -> string, fetch: string -> Option<Item>)
    : (r: Result<seq<Item>, string>)
    ensures collection.Failure? ==> r == Failure(collection.error)
    ensures collection.Success? ==>
      var fetched := FetchedItems(collectionUrl, collection.value.links, urljoin, fetch);
      && (r.Success? <==> fetched.Success?)
      && (r.Failure? ==> r.error == fetched.error)
    ensures r.Success? ==> DistinctKeys(r.value)
    ensures r.Success? ==> var fetched := FetchedItems(collectionUrl, collection.value.links, urljoin, fetch);
      fetched.Success? && IsSubsequence(r.value, fetched.value)
  {
    match collection
    case Failure(e) => Failure(e)
    case Success(d) =>
      match FetchedItems(collectionUrl, d.links, urljoin, fetch)
      case Failure(e) => Failure(e)
      case Success(its) => Success(Dedup(its, {}))
  }

  /** `fetch_items` keeps one item per key, the first fetched with it, and
      drops no key. */
  lemma FetchItemsFirstOccurrence(collectionUrl: string, collection: Result<Document, string>,
                                  urljoin: (string, string) -> string, fetch: string -> Option<Item>)
    requires FetchItems(collectionUrl, collection, urljoin, fetch).Success?
    ensures var r := FetchItems(collectionUrl, collection, urljoin, fetch).value;
      var fetched := FetchedItems(collectionUrl, collection.value.links, urljoin, fetch).value;
      && (forall x :: x in fetched ==> exists y :: y in r && ItemKey(y) == ItemKey(x))
      && (forall y :: y in r ==>
            var k := FirstWithKey(fetched, ItemKey(y)); k.Some? && fetched[k.value] == y)
  {
    var fetched := FetchedItems(collectionUrl, collection.value.links, urljoin, fetch).value;
    var r := FetchItems(collectionUrl, collection, urljoin, fetch).value;
    forall x | x in fetched
      ensures exists y :: y in r && ItemKey(y) == ItemKey(x)
    {
      DedupCoversKeys(fetched, {}, x);
    }
    forall y | y in r
      ensures var k := FirstWithKey(fetched, ItemKey(y)); k.Some? && fetched[k.value] == y
    {
      DedupKeepsFirst(fetched, {}, y);
    }
  }
}
