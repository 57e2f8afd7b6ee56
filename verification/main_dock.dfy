/** The data logic of the results panel (vantor/dialogs/main_dock.py): the
    search bbox, the filters applied to fetched items, resolving checked
    table rows to items, the download list handed to the download worker,
    the layers added by "visualize", and the date column. The widgets
    become plain values: the table is a sequence of rows, the canvas extent
    arrives already transformed to EPSG:4326, and whether QGIS can open a
    raster is a parameter. */
module MainDock {
  import opened Wrappers
  import opened Text
  import opened Seqs
  import opened JsonValue
  import opened Stac

  // ---------------------------------------------------------------------
  // Searching
  // ---------------------------------------------------------------------

  /** `_get_search_bbox`: a drawn box wins over the "use map extent"
      option; with neither there is no box. */
  function SearchBbox(drawn: Option<BBox>, useExtent: bool, extent: BBox): (r: Option<BBox>)
    ensures drawn.Some? ==> r == drawn
    ensures drawn.None? && useExtent ==> r == Some(extent)
    ensures r.None? <==> drawn.None? && !useExtent
  {
    if drawn.Some? then drawn
    else if useExtent then Some(extent)
    else None
  }

  /** The phase selector filters unless its lower-cased text is "all". */
  predicate PhaseSelects(phaseText: string) {
    Lower(phaseText) != "all"
  }

  /** The item passes the bbox filter, or there is no box. */
  predicate InBox(it: Item, bbox: Option<BBox>) {
    bbox.Some? ==> BboxKeeps(it, bbox.value)
  }

  /** What a search result must satisfy: inside the box when there is one,
      and of the selected phase when the selector filters. */
  predicate Wanted(it: Item, bbox: Option<BBox>, phaseText: string) {
    && InBox(it, bbox)
    && (PhaseSelects(phaseText) ==> PhaseMatches(it, NormalizePhase(Lower(phaseText))))
  }

  /** `_on_items_fetched`: the bbox filter when there is a box, then the
      phase filter unless the selector reads "all". The phase filter raises
      on a non-string phase, but only items inside the box reach it. */
  function SearchResults(items: seq<Item>, bbox: Option<BBox>, phaseText: string): (r: Result<seq<Item>, string>)
    ensures r.Failure? <==>
      PhaseSelects(phaseText) && exists it :: it in items && InBox(it, bbox) && !PhaseIsText(it)
    ensures r.Success? ==> forall it :: it in r.value <==> it in items && Wanted(it, bbox, phaseText)
  {
    var inBox := if bbox.Some? then FilterByBbox(items, bbox.value) else items;
    var phase := Lower(phaseText);
    if phase != "all" then FilterByPhase(inBox, phase) else Success(inBox)
  }

  /** The two filters in sequence are one selection by `Wanted`: the
      results keep the fetched order and the duplicates of a kept item. */
  lemma SearchIsOneSelection(items: seq<Item>, bbox: Option<BBox>, phaseText: string)
    requires SearchResults(items, bbox, phaseText).Success?
    ensures SearchResults(items, bbox, phaseText).value == Filter(items, it => Wanted(it, bbox, phaseText))
    ensures IsSubsequence(SearchResults(items, bbox, phaseText).value, items)
  {
    var w := it => Wanted(it, bbox, phaseText);
    var phase := Lower(phaseText);
    var key := NormalizePhase(phase);
    var q := it => PhaseMatches(it, key);
    if bbox.Some? {
      var b := it => BboxKeeps(it, bbox.value);
      if phase != "all" {
        FilterFilter(items, b, q, w);
      } else {
        FilterAgree(items, b, w);
      }
    } else {
      if phase != "all" {
        FilterAgree(items, q, w);
      } else {
        FilterAll(items, w);
      }
    }
  }

  /** When every phase is a string, filtering by phase first and by box
      second selects the same items in the same order. (With a non-string
      phase outside the box the orders differ: phase-first raises.) */
  lemma SearchFiltersCommute(items: seq<Item>, q: BBox, phaseText: string)
    requires PhaseSelects(phaseText) && forall it :: it in items ==> PhaseIsText(it)
    ensures FilterByPhase(items, Lower(phaseText)).Success?
    ensures SearchResults(items, Some(q), phaseText)
         == Success(FilterByBbox(FilterByPhase(items, Lower(phaseText)).value, q))
  {
    var w := it => Wanted(it, Some(q), phaseText);
    var key := NormalizePhase(Lower(phaseText));
    var p := it => PhaseMatches(it, key);
    var b := it => BboxKeeps(it, q);
    SearchIsOneSelection(items, Some(q), phaseText);
    FilterFilter(items, p, b, w);
  }

  /** Searching the results again with the same settings changes nothing. */
  lemma SearchIdempotent(items: seq<Item>, bbox: Option<BBox>, phaseText: string)
    requires SearchResults(items, bbox, phaseText).Success?
    ensures SearchResults(SearchResults(items, bbox, phaseText).value, bbox, phaseText)
         == SearchResults(items, bbox, phaseText)
  {
    var w := it => Wanted(it, bbox, phaseText);
    var r := SearchResults(items, bbox, phaseText).value;
    SearchIsOneSelection(items, bbox, phaseText);
    SearchIsOneSelection(r, bbox, phaseText);
    FilterIdempotent(items, w);
  }

  // ---------------------------------------------------------------------
  // Checked rows
  // ---------------------------------------------------------------------

  /** `j` is the last position of `items` whose key is `k`. */
  predicate IsLastWithKey(items: seq<Item>, key: Item -> string, k: string, j: int) {
    && 0 <= j < |items|
    && key(items[j]) == k
    && forall j' :: j < j' < |items| ==> key(items[j']) != k
  }

  /** Some item of `items` has key `k`. */
  predicate HasKey(items: seq<Item>, key: Item -> string, k: string) {
    exists j :: 0 <= j < |items| && key(items[j]) == k
  }

  /** The dict comprehension `{key(item): item for item in items}`: every
      key of some item maps to the last item that has it. */
  function ItemsById(items: seq<Item>, key: Item -> string): (m: map<string, Item>)
    ensures forall k :: k in m <==> HasKey(items, key, k)
    ensures forall k :: k in m ==> exists j :: IsLastWithKey(items, key, k, j) && m[k] == items[j]
  {
    if |items| == 0 then map[]
    else
      var n := |items| - 1;
      var m0 := ItemsById(items[..n], key);
      assert forall k :: HasKey(items, key, k) <==> HasKey(items[..n], key, k) || k == key(items[n]) by {
        forall k
          ensures HasKey(items, key, k) <==> HasKey(items[..n], key, k) || k == key(items[n])
        {
          HasKeyStep(items, key, k);
        }
      }
      assert forall k :: k in m0 && k != key(items[n]) ==>
        exists j :: IsLastWithKey(items, key, k, j) && m0[k] == items[j] by {
        forall k | k in m0 && k != key(items[n])
          ensures exists j :: IsLastWithKey(items, key, k, j) && m0[k] == items[j]
        {
          var j :| IsLastWithKey(items[..n], key, k, j) && m0[k] == items[..n][j];
          LastInPrefix(items, key, k, j);
        }
      }
      assert IsLastWithKey(items, key, key(items[n]), n);
      m0[key(items[n]) := items[n]]
  }

  lemma HasKeyStep(items: seq<Item>, key: Item -> string, k: string)
    requires |items| > 0
    ensures var n := |items| - 1;
            HasKey(items, key, k) <==> HasKey(items[..n], key, k) || k == key(items[n])
  {
    var n := |items| - 1;
    if HasKey(items, key, k) && k != key(items[n]) {
      var j :| 0 <= j < |items| && key(items[j]) == k;
      assert items[..n][j] == items[j];
    }
    if HasKey(items[..n], key, k) {
      var j :| 0 <= j < n && key(items[..n][j]) == k;
      assert items[..n][j] == items[j];
    }
  }

  /** The last item with a key other than the final item's is the same in
      the list and in the list without its final item. */
  lemma LastInPrefix(items: seq<Item>, key: Item -> string, k: string, j: int)
    requires |items| > 0 && k != key(items[|items| - 1])
    requires IsLastWithKey(items[..|items| - 1], key, k, j)
    ensures IsLastWithKey(items, key, k, j) && items[..|items| - 1][j] == items[j]
  {
    var init := items[..|items| - 1];
    forall j' | j < j' < |items|
      ensures key(items[j']) != k
    {
      if j' < |items| - 1 {
        assert init[j'] == items[j'];
      }
    }
  }

  /** The item a key maps to is exactly the last item carrying that key. */
  lemma LastItemWins(items: seq<Item>, key: Item -> string, j: nat)
    requires j < |items| && IsLastWithKey(items, key, key(items[j]), j)
    ensures key(items[j]) in ItemsById(items, key)
    ensures ItemsById(items, key)[key(items[j])] == items[j]
  {
    var m := ItemsById(items, key);
    var k := key(items[j]);
    var j2 :| IsLastWithKey(items, key, k, j2) && m[k] == items[j2];
  }

  /** A table row: whether its box is ticked (a row without a checkbox cell
      reads as unticked) and the text of its id cell, if the row has one. */
  datatype Row = Row(checked: bool, idCell: Option<string>)

  /** A ticked row whose id text is a key of the lookup. */
  predicate Resolves(row: Row, byId: map<string, Item>) {
    row.checked && row.idCell.Some? && row.idCell.value in byId
  }

  /** The row loop of `_get_checked_items` from row `from` on: `(row, item)`
      for every ticked row whose id text is known, in row order. */
  function CheckedFrom(rows: seq<Row>, byId: map<string, Item>, from: nat): (r: seq<(nat, Item)>)
    requires from <= |rows|
    ensures forall p :: p in r ==>
      from <= p.0 < |rows| && Resolves(rows[p.0], byId) && p.1 == byId[rows[p.0].idCell.value]
    ensures forall a, b :: 0 <= a < b < |r| ==> r[a].0 < r[b].0
    ensures forall row :: from <= row < |rows| && Resolves(rows[row], byId) ==>
      exists p :: p in r && p.0 == row
    decreases |rows| - from
  {
    if from == |rows| then []
    else
      var rest := CheckedFrom(rows, byId, from + 1);
      if Resolves(rows[from], byId) then [(from, byId[rows[from].idCell.value])] + rest
      else rest
  }

  /** The text the table shows in an item's id column. */
  function DisplayId(it: Item): (r: string)
    ensures r == ItemProperties(it).id
  {
    it.id.GetOr("Unknown")
  }

  /** `_get_checked_items` as written: the lookup is keyed by
      `item.get("id", "")`. */
  function CheckedItemsAsWritten(rows: seq<Row>, items: seq<Item>): (r: seq<(nat, Item)>)
    ensures forall p :: p in r ==>
      && p.0 < |rows| && rows[p.0].checked && rows[p.0].idCell.Some?
      && exists j :: IsLastWithKey(items, ItemKey, rows[p.0].idCell.value, j) && p.1 == items[j]
    ensures forall a, b :: 0 <= a < b < |r| ==> r[a].0 < r[b].0
    ensures forall row, j ::
      (0 <= row < |rows| && rows[row].checked && rows[row].idCell.Some?
       && IsLastWithKey(items, ItemKey, rows[row].idCell.value, j))
      ==> (row, items[j]) in r
  {
    var byId := ItemsById(items, ItemKey);
    var r := CheckedFrom(rows, byId, 0);
    forall row, j | 0 <= row < |rows| && rows[row].checked && rows[row].idCell.Some?
                    && IsLastWithKey(items, ItemKey, rows[row].idCell.value, j)
      ensures (row, items[j]) in r
    {
      var k := rows[row].idCell.value;
      assert HasKey(items, ItemKey, k);
      var p :| p in r && p.0 == row;
      var j2 :| IsLastWithKey(items, ItemKey, k, j2) && byId[k] == items[j2];
      assert j2 == j;
    }
    r
  }

  /** An item without an id is shown as "Unknown" but looked up under "",
      so ticking its row selects nothing. */
  lemma UnnamedItemNeverSelected()
    ensures var it := Item(None, None, map[], []);
            var rows := [Row(true, Some(ItemProperties(it).id))];
            CheckedItemsAsWritten(rows, [it]) == []
  {
    var it := Item(None, None, map[], []);
    var byId := ItemsById([it], ItemKey);
    assert ItemKey([it][0]) == "";
    assert "Unknown" !in byId;
  }

  /** `_get_checked_items` with the lookup keyed by the id text the table
      shows, so every row resolves to an item it displays. */
  function CheckedItems(rows: seq<Row>, items: seq<Item>): (r: seq<(nat, Item)>)
    ensures forall p :: p in r ==>
      p.0 < |rows| && rows[p.0].checked && p.1 in items && rows[p.0].idCell == Some(DisplayId(p.1))
    ensures forall a, b :: 0 <= a < b < |r| ==> r[a].0 < r[b].0
  {
    var byId := ItemsById(items, DisplayId);
    var r := CheckedFrom(rows, byId, 0);
    assert forall p :: p in r ==> p.1 in items && rows[p.0].idCell == Some(DisplayId(p.1)) by {
      forall p | p in r
        ensures p.1 in items && rows[p.0].idCell == Some(DisplayId(p.1))
      {
        var k := rows[p.0].idCell.value;
        var j :| IsLastWithKey(items, DisplayId, k, j) && byId[k] == items[j];
      }
    }
    r
  }

  /** Every ticked row showing the id of some fetched item is selected,
      paired with the last item showing that id. */
  lemma ShownRowSelected(rows: seq<Row>, items: seq<Item>, row: nat, j: nat)
    requires row < |rows| && rows[row].checked
    requires j < |items| && IsLastWithKey(items, DisplayId, DisplayId(items[j]), j)
    requires rows[row].idCell == Some(ItemProperties(items[j]).id)
    ensures (row, items[j]) in CheckedItems(rows, items)
  {
    var byId := ItemsById(items, DisplayId);
    LastItemWins(items, DisplayId, j);
    assert Resolves(rows[row], byId);
    var r := CheckedFrom(rows, byId, 0);
    var p :| p in r && p.0 == row;
  }

  // ---------------------------------------------------------------------
  // Downloading and visualizing
  // ---------------------------------------------------------------------

  /** The COG URL of an item when `get_cog_url` returns and `if cog_url:`
      lets the result through. */
  function UsableCog(it: Item): (r: Option<Json>)
    ensures r.Some? ==> Truthy(r.value) && CogUrl(it) == Success(r)
    ensures r.None? ==> CogUrl(it).Failure? || CogUrl(it).value.None? || !Truthy(CogUrl(it).value.value)
  {
    match CogUrl(it)
    case Success(Some(u)) => if Truthy(u) then Some(u) else None
    case _ => None
  }

  predicate Downloadable(p: (nat, Item)) {
    UsableCog(p.1).Some?
  }

  /** `get_cog_url` raises on the pair's item. */
  predicate CogRaises(p: (nat, Item)) {
    CogUrl(p.1).Failure?
  }

  /** The download pair of a downloadable checked item. */
  function Entry(p: (nat, Item)): (string, Json)
    requires Downloadable(p)
  {
    (p.1.id.GetOr("unknown"), UsableCog(p.1).value)
  }

  /** Reference list: the entries of the selected pairs, in order. */
  function Entries(ps: seq<(nat, Item)>): (r: seq<(string, Json)>)
    requires forall p :: p in ps ==> Downloadable(p)
    ensures |r| == |ps|
  {
    if |ps| == 0 then [] else [Entry(ps[0])] + Entries(ps[1..])
  }

  /** The `downloads` loop of `_download_selected`: one `(id or "unknown",
      url)` pair per checked item with a usable COG URL. An exception from
      `get_cog_url` leaves the loop, and the handler, at the first item
      that raises. */
  function DownloadList(checked: seq<(nat, Item)>): (r: Result<seq<(string, Json)>, string>)
    ensures r.Failure? <==> exists p :: p in checked && CogRaises(p)
    ensures r.Failure? ==>
      exists k :: && 0 <= k < |checked| && CogRaises(checked[k])
                  && (forall j :: 0 <= j < k ==> !CogRaises(checked[j]))
                  && r.error == CogUrl(checked[k].1).error
    ensures r.Success? ==> |r.value| == Count(checked, Downloadable)
    ensures r.Success? ==> forall p :: p in checked && Downloadable(p) ==> Entry(p) in r.value
    ensures r.Success? ==> forall x :: x in r.value ==> exists p :: p in checked && Downloadable(p) && x == Entry(p)
  {
    if |checked| == 0 then Success([])
    else if CogRaises(checked[0]) then Failure(CogUrl(checked[0].1).error)
    else
      var rest := DownloadList(checked[1..]);
      assert forall p :: p in checked <==> p == checked[0] || p in checked[1..];
      match rest
      case Failure(e) =>
        var k :| && 0 <= k < |checked[1..]| && CogRaises(checked[1..][k])
                 && (forall j :: 0 <= j < k ==> !CogRaises(checked[1..][j]))
                 && e == CogUrl(checked[1..][k].1).error;
        assert forall j :: 0 <= j < k + 1 ==> !CogRaises(checked[j]) by {
          forall j | 0 <= j < k + 1
            ensures !CogRaises(checked[j])
          {
            if j > 0 {
              assert checked[j] == checked[1..][j - 1];
            }
          }
        }
        Failure(e)
      case Success(tail) =>
        if Downloadable(checked[0]) then Success([Entry(checked[0])] + tail) else Success(tail)
  }

  /** The list keeps the checked order: it is the entries of the
      downloadable checked items. */
  lemma {:induction false} DownloadListInOrder(checked: seq<(nat, Item)>)
    requires DownloadList(checked).Success?
    ensures DownloadList(checked).value == Entries(Filter(checked, Downloadable))
  {
    if |checked| > 0 {
      DownloadListInOrder(checked[1..]);
      var f := Filter(checked[1..], Downloadable);
      if Downloadable(checked[0]) {
        assert Filter(checked, Downloadable) == [checked[0]] + f;
        assert ([checked[0]] + f)[1..] == f;
      }
    }
  }

  /** What the download button does. */
  datatype DownloadStart =
    | NothingChecked                                          // "No items selected. Check items first."
    | NoDirectory                                             // the folder dialog was dismissed
    | NoAssets                                                // "No downloadable assets found."
    | Raised(error: string)                                   // `get_cog_url` raised in the loop
    | Start(downloads: seq<(string, Json)>, outputDir: string)

  /** `_download_selected`: the worker starts only with a non-empty list,
      so the worker's `total` is never zero. */
  function DownloadSelected(checked: seq<(nat, Item)>, outputDir: string): (r: DownloadStart)
    ensures r.Start? <==>
      && |outputDir| > 0
      && (exists p :: p in checked && Downloadable(p))
      && !(exists p :: p in checked && CogRaises(p))
    ensures r.Raised? <==> |outputDir| > 0 && exists p :: p in checked && CogRaises(p)
    ensures r.Raised? ==> r.error == DownloadList(checked).error
    ensures r.Start? ==>
      r.downloads == DownloadList(checked).value && |r.downloads| > 0 && r.outputDir == outputDir
    ensures r == NothingChecked <==> |checked| == 0
  {
    if |checked| == 0 then NothingChecked
    else if |outputDir| == 0 then NoDirectory
    else match DownloadList(checked)
      case Failure(e) => Raised(e)
      case Success(downloads) =>
        assert |downloads| > 0 ==> downloads[0] in downloads;
        if |downloads| == 0 then NoAssets else Start(downloads, outputDir)
  }

  /** A raster layer added to the project: its name and its COG URL. */
  datatype Layer = Layer(name: string, cog: Json)

  /** The layers the loop added, and the exception that left it early. */
  datatype LayerRun = LayerRun(layers: seq<Layer>, raised: Option<string>)

  /** The layer loop of `_visualize_selected`; `loads(url)` is whether
      QGIS opens `/vsicurl/<url>` as a valid raster. Layers added before an
      exception from `get_cog_url` stay in the project. */
  function AddedLayers(checked: seq<(nat, Item)>, loads: Json -> bool): (r: LayerRun)
    ensures |r.layers| <= Count(checked, Downloadable)
    ensures forall l :: l in r.layers ==>
      loads(l.cog) && exists p :: p in checked && Downloadable(p) && l == Layer(p.1.id.GetOr("Unknown"), Entry(p).1)
    ensures r.raised.Some? <==> exists p :: p in checked && CogRaises(p)
  {
    if |checked| == 0 then LayerRun([], None)
    else if CogRaises(checked[0]) then LayerRun([], Some(CogUrl(checked[0].1).error))
    else
      var rest := AddedLayers(checked[1..], loads);
      assert forall p :: p in checked <==> p == checked[0] || p in checked[1..];
      var u := UsableCog(checked[0].1);
      if u.Some? && loads(u.value) then
        LayerRun([Layer(checked[0].1.id.GetOr("Unknown"), u.value)] + rest.layers, rest.raised)
      else rest
  }

  /** One pass of the layer loop over an item whose URL lookup returns. */
  lemma AddedLayersStep(checked: seq<(nat, Item)>, loads: Json -> bool)
    requires |checked| > 0 && !CogRaises(checked[0])
    ensures var u := UsableCog(checked[0].1);
            var rest := AddedLayers(checked[1..], loads);
            AddedLayers(checked, loads)
              == if u.Some? && loads(u.value)
                 then LayerRun([Layer(checked[0].1.id.GetOr("Unknown"), u.value)] + rest.layers, rest.raised)
                 else rest
  {
  }

  /** What "visualize" leaves behind: the status text, or the exception
      that left the handler before it was set, and the layers added. */
  datatype VisualizeReport = VisualizeReport(status: Result<string, string>, layers: seq<Layer>)

  function VisualizeSelected(checked: seq<(nat, Item)>, loads: Json -> bool): (r: VisualizeReport)
    ensures |checked| == 0 ==> r == VisualizeReport(Success("No items selected. Check items first."), [])
    ensures r.status.Failure? <==> exists p :: p in checked && CogRaises(p)
    ensures |checked| > 0 && r.status.Success? ==>
      r.status.value == "Added " + NatToString(|r.layers|) + " raster layer(s)."
    ensures r.status.Success? ==> |r.layers| <= |DownloadList(checked).value| <= |checked|
    ensures |r.layers| <= |checked|
  {
    if |checked| == 0 then VisualizeReport(Success("No items selected. Check items first."), [])
    else
      var run := AddedLayers(checked, loads);
      match run.raised
      case Some(e) => VisualizeReport(Failure(e), run.layers)
      case None => VisualizeReport(Success("Added " + NatToString(|run.layers|) + " raster layer(s)."), run.layers)
  }

  /** Layer `k` shows the COG URL of download `k`, for every `k`. */
  predicate CogsMatch(layers: seq<Layer>, downloads: seq<(string, Json)>) {
    |layers| == |downloads| && forall k :: 0 <= k < |layers| ==> layers[k].cog == downloads[k].1
  }

  lemma CogsMatchCons(l: Layer, layers: seq<Layer>, d: (string, Json), downloads: seq<(string, Json)>)
    requires l.cog == d.1 && CogsMatch(layers, downloads)
    ensures CogsMatch([l] + layers, [d] + downloads)
  {
  }

  /** When no URL lookup raises and every raster opens, visualizing adds
      one layer per item the download button would fetch, with the same
      URL, in the same order. */
  lemma {:induction false} AllLoadedMatchesDownloads(checked: seq<(nat, Item)>, loads: Json -> bool)
    requires DownloadList(checked).Success?
    requires forall p :: p in checked && Downloadable(p) ==> loads(UsableCog(p.1).value)
    ensures AddedLayers(checked, loads).raised.None?
    ensures CogsMatch(AddedLayers(checked, loads).layers, DownloadList(checked).value)
  {
    if |checked| > 0 {
      var tail := checked[1..];
      assert forall p :: p in tail ==> p in checked;
      AllLoadedMatchesDownloads(tail, loads);
      AddedLayersStep(checked, loads);
      var p := checked[0];
      if Downloadable(p) {
        assert loads(UsableCog(p.1).value);
        CogsMatchCons(Layer(p.1.id.GetOr("Unknown"), UsableCog(p.1).value), AddedLayers(tail, loads).layers,
                      Entry(p), DownloadList(tail).value);
      }
    }
  }

  // ---------------------------------------------------------------------
  // Date column
  // ---------------------------------------------------------------------

  /** The date shown for a `datetime` property: its first ten characters
      when it is a non-empty string, and "" for a falsy scalar (`None`,
      `False`, zero, ""), which the table cell shows as empty. A truthy
      value that is not a string raises, which is None here: a number or an
      object at the slice, a list when the table cell is built from the
      sliced list. An empty list or object skips the slice but raises at
      the table cell, which takes no container. */
  function DateColumn(dt: Json): (r: Option<string>)
    ensures !Truthy(dt) && !dt.Arr? && !dt.Obj? ==> r == Some("")
    ensures dt.Str? ==> r.Some? && |r.value| <= 10 && StartsWith(dt.s, r.value)
    ensures dt.Str? && |dt.s| >= 10 ==> |r.value| == 10
    ensures dt.Str? && |dt.s| < 10 ==> r == Some(dt.s)
    ensures r.None? <==> (Truthy(dt) && !dt.Str?) || dt.Arr? || dt.Obj?
  {
    if dt.Arr? || dt.Obj? then None
    else if !Truthy(dt) then Some("")
    else if dt.Str? then Some(Take(dt.s, 10))
    else None
  }

  /** An ISO timestamp shows its date part. */
  lemma IsoTimestampShowsDate(date: string, rest: string)
    requires |date| == 10
    ensures DateColumn(Str(date + rest)) == Some(date)
  {
    assert (date + rest)[..10] == date;
  }

  /** The shown date is a fixed point: showing it again changes nothing. */
  lemma DateColumnIdempotent(dt: Json)
    requires DateColumn(dt).Some?
    ensures DateColumn(Str(DateColumn(dt).value)) == DateColumn(dt)
  {
    var s := DateColumn(dt).value;
    if |s| > 0 {
      assert Take(s, 10) == s;
    }
  }
}
