/** The background workers (vantor/workers.py): the two fetch workers,
    which report either their result or an error text, and the download
    worker, a sequential loop over (item id, COG URL) tasks with byte-level
    progress and a cancellation flag. The HTTP responses are parameters, and
    the flag is read only at the loop's checkpoints: `cancelAt` is the index
    of the first checkpoint read that sees it set (the flag is never
    cleared, so every later read sees it too). */
module Workers {
  import opened Wrappers
  import opened Text
  import opened Stac

  // ---------------------------------------------------------------------
  // Fetch workers
  // ---------------------------------------------------------------------

  /** The one signal a fetch worker emits. */
  datatype Signal<T> = Finished(payload: T) | Error(message: string)

  /** `CatalogFetchWorker.run`. */
  function CatalogWorker(root: Result<Document, string>, urljoin: (string, string) -> string)
    : (s: Signal<seq<CatalogEntry>>)
    ensures s.Finished? <==> FetchCatalog(root, urljoin).Success?
    ensures s.Finished? ==> s.payload == FetchCatalog(root, urljoin).value
    ensures s.Error? ==> s.message == "Failed to fetch catalog: " + FetchCatalog(root, urljoin).error
  {
    match FetchCatalog(root, urljoin)
    case Success(events) => Finished(events)
    case Failure(e) => Error("Failed to fetch catalog: " + e)
  }

  /** `ItemsFetchWorker.run`. */
  function ItemsWorker(collectionUrl: string, collection: Result<Document, string>,
                       urljoin: (string, string) -> string, fetch: string -> Option<Item>)
    : (s: Signal<seq<Item>>)
    ensures s.Finished? <==> FetchItems(collectionUrl, collection, urljoin, fetch).Success?
    ensures s.Finished? ==> s.payload == FetchItems(collectionUrl, collection, urljoin, fetch).value
    ensures s.Error? ==>
              s.message == "Failed to fetch items: " + FetchItems(collectionUrl, collection, urljoin, fetch).error
  {
    match FetchItems(collectionUrl, collection, urljoin, fetch)
    case Success(items) => Finished(items)
    case Failure(e) => Error("Failed to fetch items: " + e)
  }

  /** The error text names the failure it reports: stripping the worker's
      prefix gives the exception text back. */
  lemma ErrorTextRoundTrip(prefix: string, e: string)
    ensures StartsWith(prefix + e, prefix) && (prefix + e)[|prefix|..] == e
  {
    assert (prefix + e)[..|prefix|] == prefix;
  }

  // ---------------------------------------------------------------------
  // Percentages
  // ---------------------------------------------------------------------

  /** `int(i / total * 100)`, as an exact floor. */
  function StartPct(i: nat, total: nat): nat
    requires total > 0
  {
    (100 * i) / total
  }

  /** `int((i + downloaded / size) / total * 100)`, as an exact floor. */
  function ChunkPct(i: nat, total: nat, downloaded: nat, size: nat): nat
    requires total > 0 && size > 0
  {
    (100 * (i * size + downloaded)) / (total * size)
  }

  lemma MulGrows(k: int, b: int)
    requires k >= 1 && b > 0
    ensures k * b >= b
  {
    assert k * b == (k - 1) * b + b;
    MulNonneg(k - 1, b);
  }

  lemma MulNonneg(k: int, b: int)
    requires k >= 0 && b >= 0
    ensures k * b >= 0
  {
  }

  lemma DivUnique(a: int, b: int, q: int, r: int)
    requires b > 0 && 0 <= r < b && a == q * b + r
    ensures a / b == q
  {
    var q' := a / b;
    var r' := a % b;
    assert a == q' * b + r';
    assert (q - q') * b == r' - r by {
      assert q * b - q' * b == (q - q') * b;
    }
    if q' < q {
      MulGrows(q - q', b);
    } else if q' > q {
      MulGrows(q' - q, b);
    }
  }

  lemma DivMono(a: int, b: int, c: int)
    requires 0 <= a <= b && c > 0
    ensures a / c <= b / c
  {
    var qa, ra := a / c, a % c;
    var qb, rb := b / c, b % c;
    assert a == qa * c + ra;
    assert b == qb * c + rb;
    if qa > qb {
      MulGrows(qa - qb, c);
    }
  }

  lemma DivCancel(x: nat, t: nat, s: nat)
    requires t > 0 && s > 0
    ensures (x * s) / (t * s) == x / t
  {
    var q := x / t;
    var r := x % t;
    assert x == q * t + r;
    assert x * s == q * (t * s) + r * s by {
      assert (q * t + r) * s == q * t * s + r * s;
      assert q * t * s == q * (t * s);
    }
    assert r * s < t * s by {
      assert t * s - r * s == (t - r) * s;
      MulGrows(t - r, s);
    }
    MulNonneg(r, s);
    DivUnique(x * s, t * s, q, r * s);
  }

  /** Progress within a task never goes back as bytes arrive. */
  lemma ChunkPctMonotone(i: nat, total: nat, d1: nat, d2: nat, size: nat)
    requires total > 0 && size > 0 && d1 <= d2
    ensures ChunkPct(i, total, d1, size) <= ChunkPct(i, total, d2, size)
  {
    DivMono(100 * (i * size + d1), 100 * (i * size + d2), total * size);
  }

  /** While no more than Content-Length bytes have arrived, the progress of
      task `i` stays between the percentage announced at its start and the
      one announced at the start of the next task. */
  lemma ChunkPctWithinTask(i: nat, total: nat, d: nat, size: nat)
    requires total > 0 && size > 0
    ensures StartPct(i, total) <= ChunkPct(i, total, d, size)
    ensures d <= size ==> ChunkPct(i, total, d, size) <= StartPct(i + 1, total)
  {
    DivCancel(100 * i, total, size);
    assert 100 * i * size == 100 * (i * size + 0);
    ChunkPctMonotone(i, total, 0, d, size);
    assert ChunkPct(i, total, 0, size) == StartPct(i, total);
    if d <= size {
      DivCancel(100 * (i + 1), total, size);
      assert 100 * (i + 1) * size == 100 * (i * size + size);
      ChunkPctMonotone(i, total, d, size, size);
    }
  }

  /** Before any byte has arrived, the chunk formula gives the task's start
      percentage. */
  lemma StartOfTransfer(i: nat, total: nat, size: Option<nat>)
    requires total > 0
    ensures KnownSize(size) ==> ChunkPct(i, total, 0, size.value) == StartPct(i, total)
  {
    if KnownSize(size) {
      ChunkPctWithinTask(i, total, 0, size.value);
      ChunkPctMonotone(i, total, 0, 0, size.value);
      DivCancel(100 * i, total, size.value);
      assert 100 * i * size.value == 100 * (i * size.value + 0);
    }
  }

  /** The start percentages rise with the task index and reach 100 only
      past the last task. */
  lemma StartPctMonotone(i: nat, j: nat, total: nat)
    requires total > 0 && i <= j
    ensures StartPct(i, total) <= StartPct(j, total)
    ensures i <= total ==> StartPct(i, total) <= 100
  {
    DivMono(100 * i, 100 * j, total);
    if i <= total {
      DivMono(100 * i, 100 * total, total);
      DivCancel(100, 1, total);
    }
  }

  // ---------------------------------------------------------------------
  // Download worker
  // ---------------------------------------------------------------------

  /** What `urlopen` gave for a task: the parsed Content-Length header, the
      sizes of the chunks `read` returns before end of stream, and the text
      of the exception the next read raises, if any; or the text of the
      exception raised before the first read (the request, the header, or
      creating the file). A zero-sized chunk is the end of the stream. */
  datatype Response =
    | Response(contentLength: Option<nat>, chunks: seq<nat>, failure: Option<string>)
    | Unavailable(error: string)

  /** One `(item_id, cog_url)` pair and what fetching the URL gives. */
  datatype Task = Task(itemId: string, url: string, response: Response)

  /** What the worker did, in order. `Started` is the progress signal at the
      top of a task (`at` is the checkpoint read just before it), `Chunk` a
      progress signal after a chunk, `Kept` the increment of the completed
      counter and `Removed` the deletion of the partial file (`at` is the
      checkpoint read after the transfer), and `AllDone` the final 100. */
  datatype Event =
    | Started(task: nat, pct: nat, at: nat)
    | Chunk(task: nat, pct: nat)
    | Kept(task: nat, at: nat)
    | Removed(task: nat, at: nat)
    | AllDone(pct: nat)

  /** The checkpoint read with index `c` sees the flag set. */
  predicate Seen(cancelAt: Option<nat>, c: nat) {
    cancelAt.Some? && cancelAt.value <= c
  }

  /** `if file_size:` — a missing or zero Content-Length shows no
      byte-level progress. */
  predicate KnownSize(size: Option<nat>) {
    size.Some? && size.value > 0
  }

  /** The file task `t` writes: `os.path.join(output_dir, f"{item_id}.tif")`. */
  function TargetPath(outputDir: string, t: Task, sep: char): string {
    PathJoin(outputDir, t.itemId + ".tif", sep)
  }

  /** An item id without a separator is saved as `<id>.tif` directly in the
      output directory. */
  lemma TargetPathIsIdTif(outputDir: string, t: Task, sep: char)
    requires sep !in t.itemId && sep !in ".tif"
    ensures Basename(TargetPath(outputDir, t, sep), sep) == t.itemId + ".tif"
  {
    JoinedBasename(outputDir, t.itemId + ".tif", sep);
  }

  function Sum(s: seq<nat>): nat {
    if |s| == 0 then 0 else s[0] + Sum(s[1..])
  }

  /** The inner `while True` loop of one task. */
  datatype Transfer = Transfer(pcts: seq<nat>, next: nat, error: Option<string>)

  predicate NonDecreasing(s: seq<nat>) {
    forall a, b :: 0 <= a < b < |s| ==> s[a] <= s[b]
  }

  /** Reads chunks `k..` of task `i`, having `downloaded` bytes so far; `c`
      is the index of the next checkpoint read. */
  function ReadChunks(i: nat, total: nat, size: Option<nat>, chunks: seq<nat>, failure: Option<string>,
                      k: nat, downloaded: nat, cancelAt: Option<nat>, c: nat): (r: Transfer)
    requires i < total && k <= |chunks|
    ensures r.next > c
    ensures |r.pcts| > 0 ==> KnownSize(size)
    ensures NonDecreasing(r.pcts)
    ensures KnownSize(size) ==> forall j :: 0 <= j < |r.pcts| ==>
              ChunkPct(i, total, downloaded, size.value) <= r.pcts[j]
    ensures KnownSize(size) && downloaded + Sum(chunks[k..]) <= size.value ==>
              forall j :: 0 <= j < |r.pcts| ==> r.pcts[j] <= StartPct(i + 1, total)
    ensures r.error.Some? ==> !Seen(cancelAt, r.next - 1)
    ensures failure.None? ==> r.error.None?
    decreases |chunks| - k
  {
    if Seen(cancelAt, c) then Transfer([], c + 1, None)
    else if k == |chunks| then Transfer([], c + 1, failure)
    else if chunks[k] == 0 then Transfer([], c + 1, None)
    else
      var d := downloaded + chunks[k];
      assert chunks[k..] == [chunks[k]] + chunks[k + 1..];
      var rest := ReadChunks(i, total, size, chunks, failure, k + 1, d, cancelAt, c + 1);
      if KnownSize(size) then
        var p := ChunkPct(i, total, d, size.value);
        ChunkPctMonotone(i, total, downloaded, d, size.value);
        ChunkPctWithinTask(i, total, d, size.value);
        Transfer([p] + rest.pcts, rest.next, rest.error)
      else rest
  }

  /** The task an event belongs to; the final signal ranks after all. */
  function Rank(e: Event, total: nat): nat {
    match e
    case AllDone(_) => total
    case Started(t, _, _) => t
    case Chunk(t, _) => t
    case Kept(t, _) => t
    case Removed(t, _) => t
  }

  /** The events that are progress signals. */
  predicate HasPct(e: Event) {
    e.Started? || e.Chunk? || e.AllDone?
  }

  /** The response of `t` carries no more bytes than its known
      Content-Length. */
  predicate LengthHonoured(t: Task) {
    t.response.Response? && KnownSize(t.response.contentLength) ==>
      Sum(t.response.chunks) <= t.response.contentLength.value
  }

  predicate WithinLength(tasks: seq<Task>) {
    forall j :: 0 <= j < |tasks| ==> LengthHonoured(tasks[j])
  }

  /** No request raises and no read does. */
  predicate NoFailures(tasks: seq<Task>) {
    forall j :: 0 <= j < |tasks| ==> tasks[j].response.Response? && tasks[j].response.failure.None?
  }

  /** How many times the completed counter was incremented. */
  function KeptCount(events: seq<Event>): nat {
    if |events| == 0 then 0 else (if events[0].Kept? then 1 else 0) + KeptCount(events[1..])
  }

  lemma {:induction false} KeptCountAppend(a: seq<Event>, b: seq<Event>)
    ensures KeptCount(a + b) == KeptCount(a) + KeptCount(b)
  {
    if |a| > 0 {
      assert (a + b)[0] == a[0];
      assert (a + b)[1..] == a[1..] + b;
      KeptCountAppend(a[1..], b);
    } else {
      assert a + b == b;
    }
  }

  lemma NoneKept(events: seq<Event>)
    requires forall k :: 0 <= k < |events| ==> !events[k].Kept?
    ensures KeptCount(events) == 0
  {
  }

  function ChunkEvents(i: nat, pcts: seq<nat>): (r: seq<Event>)
    ensures |r| == |pcts|
    ensures forall j :: 0 <= j < |r| ==> r[j] == Chunk(i, pcts[j])
  {
    if |pcts| == 0 then [] else [Chunk(i, pcts[0])] + ChunkEvents(i, pcts[1..])
  }

  /** The signals of task `i` up to the end of its transfer: the start
      signal and one per chunk. */
  function TaskEvents(i: nat, total: nat, c: nat, pcts: seq<nat>): seq<Event>
    requires total > 0
  {
    [Started(i, StartPct(i, total), c)] + ChunkEvents(i, pcts)
  }

  /** Percentages in signal order never go back. */
  predicate ProgressRises(events: seq<Event>) {
    forall a, b :: 0 <= a < b < |events| && HasPct(events[a]) && HasPct(events[b]) ==>
      events[a].pct <= events[b].pct
  }

  /** Every signal carries a percentage of at least `lo`. */
  predicate PctsAtLeast(events: seq<Event>, lo: nat) {
    forall k :: 0 <= k < |events| && HasPct(events[k]) ==> lo <= events[k].pct
  }

  /** Every signal carries a percentage of at most `hi`. */
  predicate PctsAtMost(events: seq<Event>, hi: nat) {
    forall k :: 0 <= k < |events| && HasPct(events[k]) ==> events[k].pct <= hi
  }

  /** Every event belongs to a task in `[lo, hi)`, and tasks never go back. */
  predicate RanksIn(events: seq<Event>, total: nat, lo: nat, hi: nat) {
    && (forall k :: 0 <= k < |events| ==> lo <= Rank(events[k], total) < hi)
    && (forall a, b :: 0 <= a < b < |events| ==> Rank(events[a], total) <= Rank(events[b], total))
  }

  lemma BoundsConcat(a: seq<Event>, b: seq<Event>, lo: nat, hi: nat)
    requires PctsAtLeast(a, lo) && PctsAtLeast(b, lo)
    ensures PctsAtLeast(a + b, lo)
    ensures PctsAtMost(a, hi) && PctsAtMost(b, hi) ==> PctsAtMost(a + b, hi)
  {
    assert forall k :: |a| <= k < |a + b| ==> (a + b)[k] == b[k - |a|];
  }

  /** Two rising runs of signals, the first ending no higher than the second
      begins, rise together. */
  lemma RisesConcat(a: seq<Event>, b: seq<Event>, mid: nat)
    ensures ProgressRises(a) && ProgressRises(b) && PctsAtMost(a, mid) && PctsAtLeast(b, mid) ==>
              ProgressRises(a + b)
  {
    var s := a + b;
    forall x, y | 0 <= x < y < |s| && HasPct(s[x]) && HasPct(s[y])
                  && ProgressRises(a) && ProgressRises(b) && PctsAtMost(a, mid) && PctsAtLeast(b, mid)
      ensures s[x].pct <= s[y].pct
    {
      if y < |a| {
        assert s[x] == a[x] && s[y] == a[y];
      } else if x >= |a| {
        assert s[x] == b[x - |a|] && s[y] == b[y - |a|];
      } else {
        assert s[x] == a[x] && s[y] == b[y - |a|];
      }
    }
  }

  lemma RanksConcat(a: seq<Event>, b: seq<Event>, total: nat, lo: nat, mid: nat, hi: nat)
    requires lo <= mid < hi
    requires RanksIn(a, total, lo, mid + 1) && RanksIn(b, total, mid, hi)
    ensures RanksIn(a + b, total, lo, hi)
  {
    var s := a + b;
    assert forall k :: |a| <= k < |s| ==> s[k] == b[k - |a|];
    assert forall k :: 0 <= k < |a| ==> s[k] == a[k];
  }

  /** The signals of one task all belong to it; only the first is a start
      signal, announcing its percentage. */
  lemma TaskEventsOrder(i: nat, total: nat, c: nat, pcts: seq<nat>)
    requires i < total
    ensures var mine := TaskEvents(i, total, c, pcts);
            && RanksIn(mine, total, i, i + 1)
            && (forall k :: 0 <= k < |mine| ==> HasPct(mine[k]))
            && (forall k :: 0 < k < |mine| ==> !mine[k].Started?)
            && mine[0] == Started(i, StartPct(i, total), c)
  {
    var mine := TaskEvents(i, total, c, pcts);
    assert forall k :: 1 <= k < |mine| ==> mine[k] == Chunk(i, pcts[k - 1]);
  }

  /** The signals of one task start at its start percentage and rise; when
      no more than Content-Length bytes arrive they stay at or below the
      next task's start percentage. */
  lemma TaskEventsProgress(i: nat, total: nat, c: nat, size: Option<nat>, chunks: seq<nat>,
                           failure: Option<string>, cancelAt: Option<nat>, c1: nat)
    requires i < total
    ensures var mine := TaskEvents(i, total, c, ReadChunks(i, total, size, chunks, failure, 0, 0, cancelAt, c1).pcts);
            && PctsAtLeast(mine, StartPct(i, total))
            && ProgressRises(mine)
            && ((KnownSize(size) ==> Sum(chunks) <= size.value) ==> PctsAtMost(mine, StartPct(i + 1, total)))
  {
    var t := ReadChunks(i, total, size, chunks, failure, 0, 0, cancelAt, c1);
    var mine := TaskEvents(i, total, c, t.pcts);
    assert chunks[0..] == chunks;
    StartOfTransfer(i, total, size);
    StartPctMonotone(i, i + 1, total);
    assert forall k :: 1 <= k < |mine| ==> mine[k] == Chunk(i, t.pcts[k - 1]);
  }

  /** One pass of the `for` body for task `i`, entered after the checkpoint
      read `c` that did not see the flag: the events, the index of the next
      checkpoint read, and the exception that aborts the worker, if any. */
  datatype Turn = Turn(events: seq<Event>, next: nat, error: Option<string>)

  lemma ConcatIndex(a: seq<Event>, b: seq<Event>)
    ensures forall k :: 0 <= k < |a| ==> (a + b)[k] == a[k]
    ensures forall k :: |a| <= k < |a| + |b| ==> (a + b)[k] == b[k - |a|]
  {
  }

  /** Every start signal is for a task below `n`, announces that task's
      percentage, and follows the checkpoint read `c`. */
  predicate StartsAt(events: seq<Event>, n: nat, c: nat) {
    forall k :: 0 <= k < |events| && events[k].Started? ==>
      events[k].task < n && n > 0 && events[k].pct == StartPct(events[k].task, n) && events[k].at == c
  }

  /** Every start signal is for a task below `n`, announces that task's
      percentage, and follows a checkpoint read at or after `c` that did
      not see the flag. */
  predicate StartsOk(events: seq<Event>, n: nat, cancelAt: Option<nat>, c: nat) {
    forall k :: 0 <= k < |events| && events[k].Started? ==>
      && events[k].task < n && n > 0
      && events[k].pct == StartPct(events[k].task, n)
      && c <= events[k].at
      && !Seen(cancelAt, events[k].at)
  }

  /** Every kept file follows a checkpoint read that did not see the flag. */
  predicate KeepsOk(events: seq<Event>, cancelAt: Option<nat>) {
    forall k :: 0 <= k < |events| && events[k].Kept? ==> !Seen(cancelAt, events[k].at)
  }

  /** Every deletion follows a checkpoint read that saw the flag and is the
      last event. */
  predicate RemovalLast(events: seq<Event>, cancelAt: Option<nat>) {
    forall k :: 0 <= k < |events| && events[k].Removed? ==> Seen(cancelAt, events[k].at) && k == |events| - 1
  }

  /** A deletion happens only if `p` holds. */
  predicate RemovedOnlyIf(events: seq<Event>, p: bool) {
    forall k :: 0 <= k < |events| && events[k].Removed? ==> p
  }

  /** One pass of the `for` body over task `i`, entered after the checkpoint
      read `c` saw no cancellation: it opens with the task's start signal
      and moves past `c`. */
  function TaskTurn(tasks: seq<Task>, i: nat, cancelAt: Option<nat>, c: nat): (u: Turn)
    requires i < |tasks|
    ensures u.next > c
    ensures |u.events| > 0 && u.events[0] == Started(i, StartPct(i, |tasks|), c)
    ensures tasks[i].response.Response? && tasks[i].response.failure.None? ==> u.error.None?
  {
    var total := |tasks|;
    match tasks[i].response
    case Unavailable(e) => Turn([Started(i, StartPct(i, total), c)], c + 1, Some(e))
    case Response(size, chunks, failure) =>
      var t := ReadChunks(i, total, size, chunks, failure, 0, 0, cancelAt, c + 1);
      var mine := TaskEvents(i, total, c, t.pcts);
      if t.error.Some? then Turn(mine, t.next, t.error)
      else
        // the `if self._cancelled` read after the transfer
        var tail := if Seen(cancelAt, t.next) then Removed(i, t.next) else Kept(i, t.next);
        Turn(mine + [tail], t.next + 1, None)
  }

  /** The counter goes up once for a pass whose transfer raised nothing and
      whose following read did not see the flag, and not otherwise. */
  lemma TaskTurnKept(tasks: seq<Task>, i: nat, cancelAt: Option<nat>, c: nat)
    requires i < |tasks|
    ensures var u := TaskTurn(tasks, i, cancelAt, c);
            KeptCount(u.events) == if u.error.None? && !Seen(cancelAt, u.next - 1) then 1 else 0
  {
    var u := TaskTurn(tasks, i, cancelAt, c);
    if tasks[i].response.Unavailable? {
      NoneKept(u.events);
    } else {
      var Response(size, chunks, failure) := tasks[i].response;
      var t := ReadChunks(i, |tasks|, size, chunks, failure, 0, 0, cancelAt, c + 1);
      var mine := TaskEvents(i, |tasks|, c, t.pcts);
      TaskEventsOrder(i, |tasks|, c, t.pcts);
      NoneKept(mine);
      if t.error.None? {
        var tail := if Seen(cancelAt, t.next) then Removed(i, t.next) else Kept(i, t.next);
        KeptCountAppend(mine, [tail]);
        assert KeptCount([tail]) == if tail.Kept? then 1 else 0;
      }
    }
  }

  /** Every event of a pass belongs to its task. */
  lemma TaskTurnRanks(tasks: seq<Task>, i: nat, cancelAt: Option<nat>, c: nat)
    requires i < |tasks|
    ensures RanksIn(TaskTurn(tasks, i, cancelAt, c).events, |tasks|, i, i + 1)
  {
    if tasks[i].response.Response? {
      var Response(size, chunks, failure) := tasks[i].response;
      var t := ReadChunks(i, |tasks|, size, chunks, failure, 0, 0, cancelAt, c + 1);
      var mine := TaskEvents(i, |tasks|, c, t.pcts);
      TaskEventsOrder(i, |tasks|, c, t.pcts);
      if t.error.None? {
        var tail := if Seen(cancelAt, t.next) then Removed(i, t.next) else Kept(i, t.next);
        RanksConcat(mine, [tail], |tasks|, i, i, i + 1);
      }
    }
  }

  /** A pass's only start signal announces its task's percentage after
      checkpoint read `c`. */
  lemma TaskTurnStarts(tasks: seq<Task>, i: nat, cancelAt: Option<nat>, c: nat)
    requires i < |tasks|
    ensures StartsAt(TaskTurn(tasks, i, cancelAt, c).events, |tasks|, c)
  {
    if tasks[i].response.Response? {
      var Response(size, chunks, failure) := tasks[i].response;
      var t := ReadChunks(i, |tasks|, size, chunks, failure, 0, 0, cancelAt, c + 1);
      var mine := TaskEvents(i, |tasks|, c, t.pcts);
      TaskEventsOrder(i, |tasks|, c, t.pcts);
      if t.error.None? {
        var tail := if Seen(cancelAt, t.next) then Removed(i, t.next) else Kept(i, t.next);
        ConcatIndex(mine, [tail]);
      }
    }
  }

  /** A pass keeps its file only after a read that did not see the flag,
      and deletes it only after one that did, as its last event, when the
      transfer raised nothing. */
  lemma TaskTurnEnds(tasks: seq<Task>, i: nat, cancelAt: Option<nat>, c: nat)
    requires i < |tasks|
    ensures var u := TaskTurn(tasks, i, cancelAt, c);
            && KeepsOk(u.events, cancelAt)
            && RemovalLast(u.events, cancelAt)
            && RemovedOnlyIf(u.events, u.error.None? && Seen(cancelAt, u.next - 1))
  {
    if tasks[i].response.Response? {
      var Response(size, chunks, failure) := tasks[i].response;
      var t := ReadChunks(i, |tasks|, size, chunks, failure, 0, 0, cancelAt, c + 1);
      var mine := TaskEvents(i, |tasks|, c, t.pcts);
      TaskEventsOrder(i, |tasks|, c, t.pcts);
      if t.error.None? {
        var tail := if Seen(cancelAt, t.next) then Removed(i, t.next) else Kept(i, t.next);
        ConcatIndex(mine, [tail]);
      }
    }
  }

  /** A pass's signals start at the task's start percentage; they rise, and
      stay at or below the next task's, when the response honours its
      Content-Length. */
  lemma TaskTurnProgress(tasks: seq<Task>, i: nat, cancelAt: Option<nat>, c: nat)
    requires i < |tasks|
    ensures PctsAtLeast(TaskTurn(tasks, i, cancelAt, c).events, StartPct(i, |tasks|))
    ensures LengthHonoured(tasks[i]) ==>
              && ProgressRises(TaskTurn(tasks, i, cancelAt, c).events)
              && PctsAtMost(TaskTurn(tasks, i, cancelAt, c).events, StartPct(i + 1, |tasks|))
  {
    var total := |tasks|;
    var u := TaskTurn(tasks, i, cancelAt, c);
    StartPctMonotone(i, i + 1, total);
    if tasks[i].response.Response? {
      var Response(size, chunks, failure) := tasks[i].response;
      var t := ReadChunks(i, total, size, chunks, failure, 0, 0, cancelAt, c + 1);
      var mine := TaskEvents(i, total, c, t.pcts);
      TaskEventsProgress(i, total, c, size, chunks, failure, cancelAt, c + 1);
      if t.error.None? {
        var tail := if Seen(cancelAt, t.next) then Removed(i, t.next) else Kept(i, t.next);
        assert u.events == mine + [tail];
        BoundsConcat(mine, [tail], StartPct(i, total), StartPct(i + 1, total));
        RisesConcat(mine, [tail], StartPct(i + 1, total));
      }
    }
  }

  /** The loop body as a function of the task index and the checkpoint read
      it is entered after. */
  function Body(tasks: seq<Task>, cancelAt: Option<nat>): (nat, nat) -> Turn {
    (j: nat, c: nat) => if j < |tasks| then TaskTurn(tasks, j, cancelAt, c) else Turn([], c + 1, None)
  }

  /** What the loop itself relies on: each pass moves past its checkpoint
      and raises only when the response does. */
  ghost predicate BodyAdvances(tasks: seq<Task>, body: (nat, nat) -> Turn) {
    forall j: nat, c: nat :: j < |tasks| ==>
      && body(j, c).next > c
      && (tasks[j].response.Response? && tasks[j].response.failure.None? ==> body(j, c).error.None?)
  }

  /** Each pass counts its file as `TaskTurnKept` says. */
  ghost predicate BodyKeeps(tasks: seq<Task>, body: (nat, nat) -> Turn, cancelAt: Option<nat>) {
    forall j: nat, c: nat :: j < |tasks| ==>
      body(j, c).next > 0 &&
      KeptCount(body(j, c).events) == (if body(j, c).error.None? && !Seen(cancelAt, body(j, c).next - 1) then 1 else 0)
  }

  /** Each pass's events belong to its task. */
  ghost predicate BodyRanks(tasks: seq<Task>, body: (nat, nat) -> Turn) {
    forall j: nat, c: nat :: j < |tasks| ==> RanksIn(body(j, c).events, |tasks|, j, j + 1)
  }

  /** Each pass honours the flag as `TaskTurnStarts` and `TaskTurnEnds` say. */
  ghost predicate BodyFlags(tasks: seq<Task>, body: (nat, nat) -> Turn, cancelAt: Option<nat>) {
    forall j: nat, c: nat :: j < |tasks| ==>
      && body(j, c).next > 0
      && StartsAt(body(j, c).events, |tasks|, c)
      && KeepsOk(body(j, c).events, cancelAt)
      && RemovalLast(body(j, c).events, cancelAt)
      && RemovedOnlyIf(body(j, c).events, body(j, c).error.None? && Seen(cancelAt, body(j, c).next - 1))
  }

  /** Each pass's signals behave as `TaskTurnProgress` says. */
  ghost predicate BodyProgress(tasks: seq<Task>, body: (nat, nat) -> Turn) {
    forall j: nat, c: nat :: j < |tasks| ==>
      && PctsAtLeast(body(j, c).events, StartPct(j, |tasks|))
      && (LengthHonoured(tasks[j]) ==>
            ProgressRises(body(j, c).events) && PctsAtMost(body(j, c).events, StartPct(j + 1, |tasks|)))
  }

  lemma BodyBehaves(tasks: seq<Task>, cancelAt: Option<nat>)
    ensures BodyAdvances(tasks, Body(tasks, cancelAt))
    ensures BodyKeeps(tasks, Body(tasks, cancelAt), cancelAt)
    ensures BodyRanks(tasks, Body(tasks, cancelAt))
    ensures BodyFlags(tasks, Body(tasks, cancelAt), cancelAt)
    ensures BodyProgress(tasks, Body(tasks, cancelAt))
  {
    var body := Body(tasks, cancelAt);
    forall j: nat, c: nat | j < |tasks|
      ensures && body(j, c).next > c
              && (tasks[j].response.Response? && tasks[j].response.failure.None? ==> body(j, c).error.None?)
    {
    }
    forall j: nat, c: nat | j < |tasks|
      ensures body(j, c).next > 0 &&
              KeptCount(body(j, c).events) == (if body(j, c).error.None? && !Seen(cancelAt, body(j, c).next - 1) then 1 else 0)
    {
      TaskTurnKept(tasks, j, cancelAt, c);
    }
    forall j: nat, c: nat | j < |tasks|
      ensures RanksIn(body(j, c).events, |tasks|, j, j + 1)
    {
      TaskTurnRanks(tasks, j, cancelAt, c);
    }
    forall j: nat, c: nat | j < |tasks|
      ensures && body(j, c).next > 0
              && StartsAt(body(j, c).events, |tasks|, c)
              && KeepsOk(body(j, c).events, cancelAt)
              && RemovalLast(body(j, c).events, cancelAt)
              && RemovedOnlyIf(body(j, c).events, body(j, c).error.None? && Seen(cancelAt, body(j, c).next - 1))
    {
      TaskTurnStarts(tasks, j, cancelAt, c);
      TaskTurnEnds(tasks, j, cancelAt, c);
    }
    forall j: nat, c: nat | j < |tasks|
      ensures && PctsAtLeast(body(j, c).events, StartPct(j, |tasks|))
              && (LengthHonoured(tasks[j]) ==>
                    ProgressRises(body(j, c).events) && PctsAtMost(body(j, c).events, StartPct(j + 1, |tasks|)))
    {
      TaskTurnProgress(tasks, j, cancelAt, c);
    }
  }

  /** The outer loop from task `i` on; `c` is the index of the next
      checkpoint read and `completed` the counter so far. */
  datatype TaskRun = TaskRun(events: seq<Event>, completed: nat, next: nat, error: Option<string>)

  /** The outer `for` loop from task `i` on, running `body` for each task:
      it only moves forward through the checkpoint reads, and raises only
      when some response does. */
  function RunTasks(tasks: seq<Task>, body: (nat, nat) -> Turn, cancelAt: Option<nat>,
                    i: nat, c: nat, completed: nat): (r: TaskRun)
    requires i <= |tasks| && BodyAdvances(tasks, body)
    ensures r.next >= c
    ensures NoFailures(tasks) ==> r.error.None?
    decreases |tasks| - i
  {
    if i == |tasks| then TaskRun([], completed, c, None)
    // `if self._cancelled: break`
    else if Seen(cancelAt, c) then TaskRun([], completed, c + 1, None)
    else
      var u := body(i, c);
      if u.error.Some? then TaskRun(u.events, completed, u.next, u.error)
      else
        var rest := RunTasks(tasks, body, cancelAt, i + 1, u.next, completed + KeptCount(u.events));
        TaskRun(u.events + rest.events, rest.completed, rest.next, rest.error)
  }

  /** One pass of the loop, unfolded. */
  lemma RunTasksStep(tasks: seq<Task>, body: (nat, nat) -> Turn, cancelAt: Option<nat>,
                     i: nat, c: nat, completed: nat)
    requires i < |tasks| && !Seen(cancelAt, c) && BodyAdvances(tasks, body)
    ensures var u := body(i, c);
            var r := RunTasks(tasks, body, cancelAt, i, c, completed);
            && u.next > c
            && (u.error.Some? ==> r.events == u.events && r.error == u.error)
            && (u.error.None? ==>
                  var rest := RunTasks(tasks, body, cancelAt, i + 1, u.next, completed + KeptCount(u.events));
                  r.events == u.events + rest.events && r.error == rest.error && r.next == rest.next)
  {
  }

  /** The counter counts the kept files; when nothing raises and the final
      read does not see the flag, every task's file was kept. */
  lemma {:induction false} RunTasksCounts(tasks: seq<Task>, body: (nat, nat) -> Turn, cancelAt: Option<nat>,
                                          i: nat, c: nat, completed: nat)
    requires i <= |tasks| && BodyAdvances(tasks, body) && BodyKeeps(tasks, body, cancelAt)
    ensures var r := RunTasks(tasks, body, cancelAt, i, c, completed);
            && r.completed == completed + KeptCount(r.events)
            && (r.error.None? && !Seen(cancelAt, r.next) ==> KeptCount(r.events) == |tasks| - i)
    decreases |tasks| - i
  {
    if i < |tasks| && !Seen(cancelAt, c) {
      var u := body(i, c);
      RunTasksStep(tasks, body, cancelAt, i, c, completed);
      assert KeptCount(u.events) == if u.error.None? && !Seen(cancelAt, u.next - 1) then 1 else 0;
      if u.error.None? {
        var rest := RunTasks(tasks, body, cancelAt, i + 1, u.next, completed + KeptCount(u.events));
        RunTasksCounts(tasks, body, cancelAt, i + 1, u.next, completed + KeptCount(u.events));
        KeptCountAppend(u.events, rest.events);
      }
    }
  }

  /** Tasks run in order: every event of the loop from task `i` on belongs
      to a task in `[i, |tasks|)`, and the task never goes back. */
  lemma {:induction false} RunTasksOrder(tasks: seq<Task>, body: (nat, nat) -> Turn, cancelAt: Option<nat>,
                                         i: nat, c: nat, completed: nat)
    requires i <= |tasks| && BodyAdvances(tasks, body) && BodyRanks(tasks, body)
    ensures RanksIn(RunTasks(tasks, body, cancelAt, i, c, completed).events, |tasks|, i, |tasks|)
    decreases |tasks| - i
  {
    if i < |tasks| && !Seen(cancelAt, c) {
      var u := body(i, c);
      RunTasksStep(tasks, body, cancelAt, i, c, completed);
      BodyRanksAt(tasks, body, i, c);
      if u.error.None? {
        RunTasksOrder(tasks, body, cancelAt, i + 1, u.next, completed + KeptCount(u.events));
        var rest := RunTasks(tasks, body, cancelAt, i + 1, u.next, completed + KeptCount(u.events));
        RanksConcat(u.events, rest.events, |tasks|, i, i, |tasks|);
      }
    }
  }

  lemma BodyRanksAt(tasks: seq<Task>, body: (nat, nat) -> Turn, i: nat, c: nat)
    requires i < |tasks| && BodyRanks(tasks, body)
    ensures RanksIn(body(i, c).events, |tasks|, i, i + 1)
  {
  }

  lemma StartsOkConcat(a: seq<Event>, b: seq<Event>, n: nat, cancelAt: Option<nat>, c: nat, c': nat)
    requires StartsOk(a, n, cancelAt, c) && StartsOk(b, n, cancelAt, c') && c <= c'
    ensures StartsOk(a + b, n, cancelAt, c)
  {
    ConcatIndex(a, b);
  }

  lemma StartsAtOk(a: seq<Event>, n: nat, cancelAt: Option<nat>, c: nat)
    requires StartsAt(a, n, c) && !Seen(cancelAt, c)
    ensures StartsOk(a, n, cancelAt, c)
  {
  }

  lemma KeepsOkConcat(a: seq<Event>, b: seq<Event>, cancelAt: Option<nat>)
    requires KeepsOk(a, cancelAt) && KeepsOk(b, cancelAt)
    ensures KeepsOk(a + b, cancelAt)
  {
    ConcatIndex(a, b);
  }

  lemma RemovalLastConcat(a: seq<Event>, b: seq<Event>, cancelAt: Option<nat>)
    requires RemovalLast(a, cancelAt) && RemovalLast(b, cancelAt)
    requires |b| > 0 ==> RemovedOnlyIf(a, false)
    ensures RemovalLast(a + b, cancelAt)
  {
    ConcatIndex(a, b);
  }

  lemma RemovedOnlyIfConcat(a: seq<Event>, b: seq<Event>, p: bool, q: bool)
    requires RemovedOnlyIf(a, p) && RemovedOnlyIf(b, q)
    ensures RemovedOnlyIf(a + b, p || q)
  {
    ConcatIndex(a, b);
  }

  /** A task starts only after a checkpoint read that did not see the flag,
      and its start signal announces that task's percentage. */
  lemma {:induction false} StartsHonourFlag(tasks: seq<Task>, body: (nat, nat) -> Turn, cancelAt: Option<nat>,
                                            i: nat, c: nat, completed: nat)
    requires i <= |tasks| && BodyAdvances(tasks, body) && BodyFlags(tasks, body, cancelAt)
    ensures StartsOk(RunTasks(tasks, body, cancelAt, i, c, completed).events, |tasks|, cancelAt, c)
    decreases |tasks| - i
  {
    if i < |tasks| && !Seen(cancelAt, c) {
      var u := body(i, c);
      RunTasksStep(tasks, body, cancelAt, i, c, completed);
      assert StartsAt(u.events, |tasks|, c);
      StartsAtOk(u.events, |tasks|, cancelAt, c);
      if u.error.None? {
        var rest := RunTasks(tasks, body, cancelAt, i + 1, u.next, completed + KeptCount(u.events));
        StartsHonourFlag(tasks, body, cancelAt, i + 1, u.next, completed + KeptCount(u.events));
        StartsOkConcat(u.events, rest.events, |tasks|, cancelAt, c, u.next);
      }
    }
  }

  /** A file is kept only when the read after its transfer did not see the
      flag. */
  lemma {:induction false} KeepsHonourFlag(tasks: seq<Task>, body: (nat, nat) -> Turn, cancelAt: Option<nat>,
                                           i: nat, c: nat, completed: nat)
    requires i <= |tasks| && BodyAdvances(tasks, body) && BodyFlags(tasks, body, cancelAt)
    ensures KeepsOk(RunTasks(tasks, body, cancelAt, i, c, completed).events, cancelAt)
    decreases |tasks| - i
  {
    if i < |tasks| && !Seen(cancelAt, c) {
      var u := body(i, c);
      RunTasksStep(tasks, body, cancelAt, i, c, completed);
      assert KeepsOk(u.events, cancelAt);
      if u.error.None? {
        var rest := RunTasks(tasks, body, cancelAt, i + 1, u.next, completed + KeptCount(u.events));
        KeepsHonourFlag(tasks, body, cancelAt, i + 1, u.next, completed + KeptCount(u.events));
        KeepsOkConcat(u.events, rest.events, cancelAt);
      }
    }
  }

  /** A partial file is deleted only when the read after its transfer saw
      the flag; the deletion is then the last event, nothing raises, and the
      final read sees the flag too. */
  lemma {:induction false} RemovalEndsRun(tasks: seq<Task>, body: (nat, nat) -> Turn, cancelAt: Option<nat>,
                                          i: nat, c: nat, completed: nat)
    requires i <= |tasks| && BodyAdvances(tasks, body) && BodyFlags(tasks, body, cancelAt)
    ensures var r := RunTasks(tasks, body, cancelAt, i, c, completed);
            RemovalLast(r.events, cancelAt) && RemovedOnlyIf(r.events, r.error.None? && Seen(cancelAt, r.next))
    decreases |tasks| - i
  {
    if i < |tasks| && !Seen(cancelAt, c) {
      var u := body(i, c);
      RunTasksStep(tasks, body, cancelAt, i, c, completed);
      assert RemovalLast(u.events, cancelAt);
      assert RemovedOnlyIf(u.events, u.error.None? && Seen(cancelAt, u.next - 1));
      if u.error.None? {
        var rest := RunTasks(tasks, body, cancelAt, i + 1, u.next, completed + KeptCount(u.events));
        RemovalEndsRun(tasks, body, cancelAt, i + 1, u.next, completed + KeptCount(u.events));
        if Seen(cancelAt, u.next - 1) {
          assert rest.events == [] && rest.error.None? && rest.next >= u.next;
          assert u.events + rest.events == u.events;
        } else {
          RemovalLastConcat(u.events, rest.events, cancelAt);
          RemovedOnlyIfConcat(u.events, rest.events, false, rest.error.None? && Seen(cancelAt, rest.next));
        }
      }
    }
  }

  /** Progress never starts below task `i`'s percentage. */
  lemma {:induction false} RunTasksFloor(tasks: seq<Task>, body: (nat, nat) -> Turn, cancelAt: Option<nat>,
                                         i: nat, c: nat, completed: nat)
    requires i < |tasks| && BodyAdvances(tasks, body) && BodyProgress(tasks, body)
    ensures PctsAtLeast(RunTasks(tasks, body, cancelAt, i, c, completed).events, StartPct(i, |tasks|))
    decreases |tasks| - i
  {
    var n := |tasks|;
    if !Seen(cancelAt, c) {
      var u := body(i, c);
      RunTasksStep(tasks, body, cancelAt, i, c, completed);
      assert PctsAtLeast(u.events, StartPct(i, n));
      if u.error.None? {
        var rest := RunTasks(tasks, body, cancelAt, i + 1, u.next, completed + KeptCount(u.events));
        if i + 1 < n {
          RunTasksFloor(tasks, body, cancelAt, i + 1, u.next, completed + KeptCount(u.events));
          StartPctMonotone(i, i + 1, n);
        } else {
          assert rest.events == [];
        }
        BoundsConcat(u.events, rest.events, StartPct(i, n), 100);
      }
    }
  }

  /** When every response honours its Content-Length, no percentage
      passes 100. */
  lemma {:induction false} RunTasksAtMost(tasks: seq<Task>, body: (nat, nat) -> Turn, cancelAt: Option<nat>,
                                          i: nat, c: nat, completed: nat)
    requires i <= |tasks| && BodyAdvances(tasks, body) && BodyProgress(tasks, body) && WithinLength(tasks)
    ensures PctsAtMost(RunTasks(tasks, body, cancelAt, i, c, completed).events, 100)
    decreases |tasks| - i
  {
    var n := |tasks|;
    if i < n && !Seen(cancelAt, c) {
      var u := body(i, c);
      RunTasksStep(tasks, body, cancelAt, i, c, completed);
      assert LengthHonoured(tasks[i]);
      StartPctMonotone(i + 1, n, n);
      assert PctsAtMost(u.events, 100);
      if u.error.None? {
        var rest := RunTasks(tasks, body, cancelAt, i + 1, u.next, completed + KeptCount(u.events));
        RunTasksAtMost(tasks, body, cancelAt, i + 1, u.next, completed + KeptCount(u.events));
        BoundsConcat(u.events, rest.events, 0, 100);
      }
    }
  }

  /** When every response honours its Content-Length, the percentages
      never go back. */
  lemma {:induction false} RunTasksRises(tasks: seq<Task>, body: (nat, nat) -> Turn, cancelAt: Option<nat>,
                                         i: nat, c: nat, completed: nat)
    requires i <= |tasks| && BodyAdvances(tasks, body) && BodyProgress(tasks, body) && WithinLength(tasks)
    ensures ProgressRises(RunTasks(tasks, body, cancelAt, i, c, completed).events)
    decreases |tasks| - i
  {
    if i < |tasks| && !Seen(cancelAt, c) {
      var u := body(i, c);
      RunTasksStep(tasks, body, cancelAt, i, c, completed);
      if u.error.None? {
        RunTasksRises(tasks, body, cancelAt, i + 1, u.next, completed + KeptCount(u.events));
        RisesAcrossTask(tasks, body, cancelAt, i, c, completed);
      } else {
        BodyProgressAt(tasks, body, i, c);
      }
    }
  }

  /** The signals of task `i` followed by a rising rest of the run rise. */
  lemma RisesAcrossTask(tasks: seq<Task>, body: (nat, nat) -> Turn, cancelAt: Option<nat>,
                        i: nat, c: nat, completed: nat)
    requires i < |tasks| && BodyAdvances(tasks, body) && BodyProgress(tasks, body) && WithinLength(tasks)
    requires body(i, c).error.None?
    requires ProgressRises(RunTasks(tasks, body, cancelAt, i + 1, body(i, c).next,
                                    completed + KeptCount(body(i, c).events)).events)
    ensures ProgressRises(body(i, c).events + RunTasks(tasks, body, cancelAt, i + 1, body(i, c).next,
                                                      completed + KeptCount(body(i, c).events)).events)
  {
    var n := |tasks|;
    var u := body(i, c);
    var rest := RunTasks(tasks, body, cancelAt, i + 1, u.next, completed + KeptCount(u.events));
    BodyProgressAt(tasks, body, i, c);
    if i + 1 < n {
      RunTasksFloor(tasks, body, cancelAt, i + 1, u.next, completed + KeptCount(u.events));
    } else {
      assert rest.events == [];
    }
    RisesConcat(u.events, rest.events, StartPct(i + 1, n));
  }

  /** What `BodyProgress` says about one pass whose response honours its
      Content-Length. */
  lemma BodyProgressAt(tasks: seq<Task>, body: (nat, nat) -> Turn, i: nat, c: nat)
    requires i < |tasks| && BodyProgress(tasks, body) && WithinLength(tasks)
    ensures ProgressRises(body(i, c).events) && PctsAtMost(body(i, c).events, StartPct(i + 1, |tasks|))
  {
    assert LengthHonoured(tasks[i]);
  }

  /** `DownloadWorker.run`: `dirError` is the exception `os.makedirs`
      raised, if any. */
  datatype Outcome = Outcome(ok: bool, message: string, events: seq<Event>, completed: nat)

  /** The message of a run the flag stopped. */
  function CancelMessage(completed: nat): string {
    "Download cancelled. " + NatToString(completed) + " file(s) completed."
  }

  /** The message of a run that got through every task. */
  function SuccessMessage(count: nat, outputDir: string): string {
    "Successfully downloaded " + NatToString(count) + " file(s) to " + outputDir
  }

  /** The run either reports success after a final 100% signal, or fails
      with the exception's text, or reports a cancellation with the counter. */
  function DownloadRun(tasks: seq<Task>, outputDir: string, cancelAt: Option<nat>, dirError: Option<string>)
    : (r: Outcome)
    ensures r.ok ==> r.message == SuccessMessage(|tasks|, outputDir)
    ensures r.ok ==> |r.events| > 0 && r.events[|r.events| - 1] == AllDone(100)
    ensures !r.ok ==> r.message == CancelMessage(r.completed) || "Download failed: " <= r.message
    ensures dirError.Some? ==> !r.ok && r.message == "Download failed: " + dirError.value && r.events == []
    ensures cancelAt.None? && dirError.None? && NoFailures(tasks) ==> r.ok
  {
    if dirError.Some? then Outcome(false, "Download failed: " + dirError.value, [], 0)
    else
      BodyBehaves(tasks, cancelAt);
      var t := RunTasks(tasks, Body(tasks, cancelAt), cancelAt, 0, 0, 0);
      if t.error.Some? then Outcome(false, "Download failed: " + t.error.value, t.events, t.completed)
      else if Seen(cancelAt, t.next) then Outcome(false, CancelMessage(t.completed), t.events, t.completed)
      else Outcome(true, SuccessMessage(|tasks|, outputDir), t.events + [AllDone(100)], t.completed)
  }

  /** The run as the loop left it, before the closing signal. */
  lemma DownloadUnfold(tasks: seq<Task>, outputDir: string, cancelAt: Option<nat>)
    ensures BodyAdvances(tasks, Body(tasks, cancelAt))
    ensures var r := DownloadRun(tasks, outputDir, cancelAt, None);
            var t := RunTasks(tasks, Body(tasks, cancelAt), cancelAt, 0, 0, 0);
            && r.completed == t.completed
            && r.ok == (t.error.None? && !Seen(cancelAt, t.next))
            && (r.ok ==> r.events == t.events + [AllDone(100)])
            && (!r.ok ==> r.events == t.events)
            && (!r.ok && t.error.None? ==> r.message == CancelMessage(t.completed))
  {
    BodyBehaves(tasks, cancelAt);
  }

  /** The counter counts the files kept, and a successful run kept all. */
  lemma DownloadCounts(tasks: seq<Task>, outputDir: string, cancelAt: Option<nat>, dirError: Option<string>)
    ensures var r := DownloadRun(tasks, outputDir, cancelAt, dirError);
            r.completed == KeptCount(r.events) && (r.ok ==> r.completed == |tasks|)
  {
    if dirError.None? {
      DownloadUnfold(tasks, outputDir, cancelAt);
      BodyBehaves(tasks, cancelAt);
      var t := RunTasks(tasks, Body(tasks, cancelAt), cancelAt, 0, 0, 0);
      RunTasksCounts(tasks, Body(tasks, cancelAt), cancelAt, 0, 0, 0);
      KeptCountAppend(t.events, [AllDone(100)]);
    }
  }

  /** When every response honours its Content-Length, the progress signals
      of the whole run never go back and never pass 100. */
  lemma DownloadProgress(tasks: seq<Task>, outputDir: string, cancelAt: Option<nat>, dirError: Option<string>)
    requires WithinLength(tasks)
    ensures var r := DownloadRun(tasks, outputDir, cancelAt, dirError);
            ProgressRises(r.events) && PctsAtMost(r.events, 100)
  {
    if dirError.None? {
      DownloadUnfold(tasks, outputDir, cancelAt);
      BodyBehaves(tasks, cancelAt);
      var t := RunTasks(tasks, Body(tasks, cancelAt), cancelAt, 0, 0, 0);
      RunTasksRises(tasks, Body(tasks, cancelAt), cancelAt, 0, 0, 0);
      RunTasksAtMost(tasks, Body(tasks, cancelAt), cancelAt, 0, 0, 0);
      var last := [AllDone(100)];
      assert PctsAtLeast(last, 100);
      assert PctsAtLeast(t.events, 0);
      BoundsConcat(t.events, last, 0, 100);
      RisesConcat(t.events, last, 100);
    }
  }

  /** Files are handled in list order, and the closing signal comes after
      every task's events. */
  lemma DownloadOrder(tasks: seq<Task>, outputDir: string, cancelAt: Option<nat>, dirError: Option<string>)
    ensures var r := DownloadRun(tasks, outputDir, cancelAt, dirError);
            RanksIn(r.events, |tasks|, 0, |tasks| + 1)
  {
    if dirError.None? {
      DownloadUnfold(tasks, outputDir, cancelAt);
      BodyBehaves(tasks, cancelAt);
      var t := RunTasks(tasks, Body(tasks, cancelAt), cancelAt, 0, 0, 0);
      RunTasksOrder(tasks, Body(tasks, cancelAt), cancelAt, 0, 0, 0);
      assert RanksIn(t.events, |tasks|, 0, |tasks| + 1);
      RanksConcat(t.events, [AllDone(100)], |tasks|, 0, |tasks|, |tasks| + 1);
    }
  }

  /** Every file is started and kept only after a check that did not see
      the flag; a partial file is deleted only in a cancelled run, and
      nothing follows the deletion. */
  lemma DownloadHonoursFlag(tasks: seq<Task>, outputDir: string, cancelAt: Option<nat>, dirError: Option<string>)
    ensures var r := DownloadRun(tasks, outputDir, cancelAt, dirError);
            && StartsOk(r.events, |tasks|, cancelAt, 0)
            && KeepsOk(r.events, cancelAt)
            && RemovalLast(r.events, cancelAt)
            && RemovedOnlyIf(r.events, !r.ok && r.message == CancelMessage(r.completed))
  {
    if dirError.None? {
      DownloadUnfold(tasks, outputDir, cancelAt);
      BodyBehaves(tasks, cancelAt);
      var body := Body(tasks, cancelAt);
      var t := RunTasks(tasks, body, cancelAt, 0, 0, 0);
      StartsHonourFlag(tasks, body, cancelAt, 0, 0, 0);
      KeepsHonourFlag(tasks, body, cancelAt, 0, 0, 0);
      RemovalEndsRun(tasks, body, cancelAt, 0, 0, 0);
      var r := DownloadRun(tasks, outputDir, cancelAt, None);
      if r.ok {
        var s := t.events + [AllDone(100)];
        assert forall k :: 0 <= k < |t.events| ==> s[k] == t.events[k];
        assert !s[|s| - 1].Removed?;
      }
    }
  }

  /** A flag raised before the first check stops the run before any
      download: no signal, no file, and zero files reported. */
  lemma CancelBeforeStart(tasks: seq<Task>, outputDir: string)
    requires |tasks| > 0
    ensures var r := DownloadRun(tasks, outputDir, Some(0), None);
            && !r.ok && r.events == [] && r.completed == 0
            && r.message == "Download cancelled. 0 file(s) completed."
  {
    DownloadUnfold(tasks, outputDir, Some(0));
    BodyBehaves(tasks, Some(0));
    assert RunTasks(tasks, Body(tasks, Some(0)), Some(0), 0, 0, 0) == TaskRun([], 0, 1, None);
    NoneCompletedMessage();
  }

  lemma NoneCompletedMessage()
    ensures CancelMessage(0) == "Download cancelled. 0 file(s) completed."
  {
    assert NatToString(0) == "0";
  }

}
