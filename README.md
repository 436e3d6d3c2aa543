# A verified model of the getdata1014 task-graph engine

`getdata1014.py` runs declarative pipelines. Each pipeline has a list of nodes (`SNode`) and a list of links. A link
`{from, to}` says that `to` consumes `from`'s output. The engine has three parts:

- Loading (`load_graph_from_config`) builds one `SNode` per id and registers each node with count 0. It then adds
  the links in order. A link that names an unknown id raises `KeyError` before any node runs.
- Running (`Graph.bfs`) is Kahn's algorithm with a FIFO queue:
  - it first queues every node whose count is 0, in dict insertion order;
  - it then pops a node, runs its step (`execute`) and merges the node's output into each successor's input;
  - it decrements each successor's count, and queues a successor whose count reaches 0.
  The merge is a check-then-append `extend`: a record already in the input is skipped, and so is a record appended
  earlier in the same merge.
- `__main__` loads and runs each pipeline in turn and logs the id of every node that ran. When the graph holds exactly
  one node, it calls `execute` directly.

One step is modelled in full, because it is the one that pages and merges: `SNode.fetch_parse_b`. It pages through a
remote listing, newest first, and appends each record newer than the local snapshot's first key. It stops at the first
record that is not newer, or when the page counter passes the reported page count. Finally it appends the whole
snapshot.

The model is imperative where the code is:

- `SNode` and `Graph` are classes whose methods update their fields.
- Every loop that updates state, such as `bfs`'s `while queue`, the merge's `extend`, the loading loops and the paging
  loop, is a `while` loop whose invariants relate it to a specification function.
- Two loops only compute a value and are functions: the generator that seeds the queue (`Kahn.ZeroIndegree`), and
  the logging loop of `__main__` (`Pipeline.IdsOf`).
- The lemmas state the graph-level promises:
  - a scheduled run is topologically ordered;
  - a node is scheduled exactly when no cycle feeds it;
  - an acyclic graph runs every node;
  - the counts sum to the number of links;
  - a merged input holds each record once;
  - the incremental step keeps exactly the newer prefix of what it processed.

Three behaviours of the code are easy to overlook. The model states each one as the code behaves:

- **Fast path.** `__main__` tests `len(g.indegree) == 1`, which counts nodes and ignores links. A single node linked to
  itself still runs once through the fast path, although Kahn's algorithm would never schedule it
  (`Pipeline.SelfLinkNeverScheduled`).
- **Empty snapshot.** `fetch_parse_b` reads `local_df.iloc[0,0]` at the first record it examines. A snapshot file with
  a header and no rows therefore raises (`Incremental.EmptySnapshotRaises`). `save_data([])` writes exactly such a
  file, for example after a run against a one-page listing.
- **Last page and the merge.** `fetch_parse_b` increments the page counter before comparing it with the reported page
  count. The last page is therefore fetched but never processed, and a one-page listing contributes nothing
  (`Incremental.LastPageUnprocessed`, `Incremental.OnePageProcessesNothing`). The snapshot is appended with `+=`,
  so nothing removes duplicates between the new records and the snapshot.

## Model

| member | source | states |
|---|---|---|
| Propagation.ExtendKeepsPrefix | getdata1014.py:233 | merging into an input keeps the old input, unchanged, as a prefix |
| Propagation.ExtendNoDup | getdata1014.py:233 | merging into a duplicate-free input leaves it duplicate-free |
| Propagation.ExtendElements | getdata1014.py:233 | after the merge, a record is in the input iff it was in the old input or in the merged output |
| Propagation.ExtendPresent | getdata1014.py:233 | merging records that are all present already changes nothing |
| Propagation.ExtendIdempotent | getdata1014.py:233 | merging the same output twice gives the same input as merging it once |
| TaskGraph.SNode.constructor | getdata1014.py:92-99 | a new node has the configured id, url and step name, the `save_conf` path and colname (or none), an empty input, and the configured initial output |
| TaskGraph.SNode.Execute | getdata1014.py:101-103 | the node's output becomes what its named step makes of its id, url, input and previous output; the input is unchanged; the node has run once more |
| TaskGraph.SNode.Absorb | getdata1014.py:233 | the record-by-record `extend` loop leaves exactly the input that the check-then-append merge specifies |
| TaskGraph.SumCountsIsSumInDegree | getdata1014.py:220-223 | when every count matches the links, the counts of the listed nodes add up to their number of incoming links |
| TaskGraph.AddLinkGraph | getdata1014.py:221 | after appending v to u's successor list, every successor list still lists exactly the targets of that node's links, in link order |
| TaskGraph.AddLinkCounts | getdata1014.py:222-223 | incrementing v's count and defaulting u's count to 0 keeps every count equal to the number of links into its node |
| TaskGraph.AddLinkWellFormed | getdata1014.py:220-223 | one `add_link` keeps the graph's shape: successor lists match the links, dict order lists each key once with new keys appended (v before u), both ends are keys; counts that were right stay right |
| TaskGraph.Graph.constructor | getdata1014.py:217-219 | a new graph has no successors, no counts, and no links |
| TaskGraph.Graph.SuccIsTargets | getdata1014.py:232 | `graph[node]` (an empty list when there is no entry) is the list of the node's link targets in link order |
| TaskGraph.Graph.CountsSumToLinks | getdata1014.py:220-223 | in a consistent graph `sum(indegree.values())` equals the number of links |
| TaskGraph.Graph.Register | getdata1014.py:247-248 | reading `g.indegree[node]` adds the node with count 0 at the end of the dict order when it is absent, and changes nothing otherwise; the graph stays consistent |
| TaskGraph.Graph.AddLink | getdata1014.py:220-223 | the link is recorded; v is appended to u's successors; v's count goes up by one; u gets count 0 if it had none; new keys go at the end of the dict order; a consistent graph stays consistent |
| TaskGraph.Graph.Bfs | getdata1014.py:225-237 | every node runs at most once; the result is topologically ordered and holds every node whose count started at 0; every unscheduled node has an unprocessed predecessor; each count is the number of links into the node from nodes that did not run; each input is the in-order merge of the outputs of the predecessors that ran; nodes that did not run keep their output |
| TaskGraph.Graph.Drain | getdata1014.py:227-236 | the `while queue` loop ends with an empty queue, has run the initial queue first, and leaves counts, inputs, outputs and run counts as Kahn's invariant and the merge specify |
| TaskGraph.Graph.Turn | getdata1014.py:229-236 | popping the head runs a node that has not run yet, appends it to the result, and keeps Kahn's invariant and what every node holds |
| TaskGraph.Graph.Visit | getdata1014.py:230-236 | running the popped node and then propagating its output leaves the nodes as if that node had also run: its output is the step's, and each successor's input has gathered it |
| TaskGraph.Graph.Propagate | getdata1014.py:232-236 | each successor's input has the node's output merged in once (duplicate links merge again with no effect); each count drops once per link; the successors whose count reaches 0 are appended to the queue in successor order |
| Kahn.ZeroIndegree | getdata1014.py:226 | the initial queue holds exactly the listed nodes whose count is 0, without repeats; its order, the dict order, is the definition's own |
| Kahn.ZeroIndegreeAll | getdata1014.py:226 | when every count is 0 the initial queue is the whole dict order |
| Kahn.DecrementedCount | getdata1014.py:234 | after decrementing along a successor list, a node's count has dropped by the number of times the node occurs in the list |
| Kahn.ReleasedSpec | getdata1014.py:235-236 | a node is queued by the propagation loop exactly when its count reaches 0 there; it is queued at most once |
| Kahn.Decrement | getdata1014.py:234-236 | one turn of the successor loop decrements one count and queues that successor when its count reaches 0 |
| Kahn.KahnStart | getdata1014.py:226 | with counts equal to the indegrees, the initial queue satisfies Kahn's invariant: nothing has run, and a node is queued iff its count is 0 |
| Kahn.TopoSnoc | getdata1014.py:230 | appending a node whose predecessors have all run keeps the result topologically ordered |
| Kahn.KahnStep | getdata1014.py:229-236 | one turn pops a node that has not run, and the new counts and queue satisfy Kahn's invariant again |
| Kahn.KahnStepCounted | getdata1014.py:232-236 | after one turn each count is the number of links into the node from nodes that have not run |
| Kahn.KahnEnd | getdata1014.py:228-237 | when the queue is empty the result has no repeats, and every node that did not run has a predecessor that did not run |
| Digraph.TargetsAreLinks | getdata1014.py:221 | v is among u's successors iff there is a link from u to v |
| Digraph.PendingZero | getdata1014.py:234-235 | a node's count of incoming links from unfinished nodes is 0 iff every link into it comes from a finished node |
| Digraph.SumInDegreeIsLinkCount | getdata1014.py:220-223 | the indegrees of a duplicate-free list that holds every link target add up to the number of links |
| Digraph.AncestorScheduledEarlier | getdata1014.py:225-237 | in a topological order, the start of any walk that ends at a scheduled node was scheduled earlier |
| Digraph.CycleFedNeverScheduled | getdata1014.py:225-237 | a node that some cycle reaches is never scheduled |
| Digraph.UnscheduledFedByCycle | getdata1014.py:225-237 | when the scheduler is stuck, every node it did not schedule is reached by a cycle |
| Digraph.ScheduledIffNotFedByCycle | getdata1014.py:225-237 | a node is scheduled iff no cycle reaches it |
| Digraph.AcyclicAllScheduled | getdata1014.py:225-237 | in a graph without cycles every node is scheduled |
| Digraph.GatherKeepsPrefix | getdata1014.py:233 | what a node gathers from its predecessors' outputs keeps its starting input as a prefix |
| Digraph.GatherNoDup | getdata1014.py:233 | gathering into a duplicate-free input keeps it duplicate-free |
| Digraph.GatherElements | getdata1014.py:232-233 | a record is in a gathered input iff it was in the starting input or in the output of a predecessor that ran |
| Pipeline.Ids | getdata1014.py:246 | the keys of the `nodes` dict comprehension: duplicate-free, and exactly the configured ids; their first-occurrence order is the definition's own |
| Pipeline.Latest | getdata1014.py:246 | the comprehension maps exactly the configured ids, each to an entry with that id |
| Pipeline.LatestIsLast | getdata1014.py:246 | an id's node is built from the id's last entry in the list |
| Pipeline.Resolved | getdata1014.py:249-250 | the position of the first link that names an unknown id, or the number of links when none does |
| Pipeline.LoadError | getdata1014.py:244-251 | loading fails iff some link names an unknown id; the error is the first such link's unknown id, `from` before `to` |
| Pipeline.BuildNodes | getdata1014.py:246 | each configured id gets a freshly built node, made from the id's last entry |
| Pipeline.RegisterAll | getdata1014.py:247-248 | afterwards the dict order is one node per id, in key order; there are no links, and the graph is consistent |
| Pipeline.AddRegisteredLink | getdata1014.py:250 | a link between registered nodes adds no key and keeps the graph consistent |
| Pipeline.LinkedSnoc | getdata1014.py:249-250 | a resolvable next link extends the recorded links by the pair of nodes its ids name |
| Pipeline.AddAll | getdata1014.py:249-250 | either the first unresolvable link's unknown id is reported, or every link has been added in order between the nodes its ids name, with no new keys and the graph consistent |
| Pipeline.Wire | getdata1014.py:245-250 | a fresh graph: the nodes registered in key order, then the links added, or the first `KeyError` |
| Pipeline.LoadGraphFromConfig | getdata1014.py:244-251 | fails with exactly `LoadError`; otherwise returns a fresh, consistent graph of fresh nodes, one per id in key order, each built from its last entry, with the links in list order |
| Pipeline.LoadedFrom | getdata1014.py:244-251 | the built nodes, registered in key order and wired link by link, form the graph `load_graph_from_config` describes |
| Pipeline.LoadedCounts | getdata1014.py:244-251 | in a loaded graph each count is the node's indegree, and the counts add up to the number of configured links |
| Pipeline.RunSingle | getdata1014.py:257-261 | the fast path runs the single node once on its unchanged input, reports exactly that node, and touches no input |
| Pipeline.RunBfs | getdata1014.py:262-266 | every node runs at most once, in a topological order that gets stuck only behind unrun predecessors; each input is its old input with the outputs of the predecessors that ran merged in, in run order; a node that did not run keeps its output; with no links, every node runs in dict order; with no cycle, every node runs |
| Pipeline.Dispatch | getdata1014.py:257-266 | one node: the fast path runs it, even when it links to itself, and leaves counts and inputs unchanged; otherwise a topological order in which each input is the old input with the outputs of the predecessors that ran merged in; each node that ran ran once on that input; a node that did not run keeps its output; with no cycle, every node runs |
| Pipeline.LoggedOrder | getdata1014.py:246-266 | the ids logged for a run of loaded nodes follow the configured links in topological order, and an id is logged iff no cycle of configured links reaches it |
| Pipeline.LoggedRun | getdata1014.py:257-266 | what `Dispatch` runs on a loaded graph logs distinct configured ids: all of them with one node, no link or no cycle; otherwise in topological order over the configured links, an id logged iff no cycle reaches it |
| Pipeline.IdsDistinct | getdata1014.py:259-266 | the logged ids are distinct configured ids |
| Pipeline.RunPipeline | getdata1014.py:256-266 | a pipeline flagged by `LoadError` logs nothing and raises; otherwise the logged ids are distinct configured ids, all of them with one node, no link or no cycle; with more than one node they follow the configured links in topological order, and an id is logged iff no cycle of links reaches it |
| Pipeline.AllLoggedSnoc | getdata1014.py:255-266 | a successfully logged next pipeline extends the logs of all earlier pipelines |
| Pipeline.RunPipelines | getdata1014.py:255-266 | the pipelines run in order; the first `KeyError` aborts the rest; every pipeline before it loaded and logged as `RunPipeline` states |
| Pipeline.SelfLinkNeverScheduled | getdata1014.py:257-263 | a node linked to itself is never in a topological order, so without the node-count test it would never run |
| Incremental.Cut | getdata1014.py:135-142 | the index of the first record that is not newer than the snapshot's first key; all records before it are newer |
| Incremental.CutUnique | getdata1014.py:135-142 | that index is the only one with only newer records before it and a non-newer record at it |
| Incremental.CutAppend | getdata1014.py:135-142 | scanning two pages in a row stops in the first page if that page has a non-newer record, and in the second page otherwise |
| Incremental.ScanPage | getdata1014.py:135-142 | the inner loop appends the page's leading newer records and reports whether it hit a non-newer one; with an empty snapshot it raises at the first record and appends nothing |
| Incremental.ScanNext | getdata1014.py:127-142 | one turn of `while need_update` at page n: the page stops the loop, or it raises, or it is cut short, or it is kept whole and the loop goes on at page n + 1 |
| Incremental.FetchPage | getdata1014.py:128-142 | one turn of `while need_update` appends what that turn keeps and reports whether the loop goes on, consistently with the run from page n |
| Incremental.Paginate | getdata1014.py:126-142 | the loop appends exactly the records the run keeps, reports how many pages it fetched, and reports whether it raised |
| Incremental.FetchParseB | getdata1014.py:123-144 | the output gains the kept records and then the whole snapshot; when the empty-snapshot error escapes, it gains the kept records only, which are none |
| Incremental.ScanKeepsNewerPrefix | getdata1014.py:126-142 | with a usable snapshot or none, the run never raises and keeps exactly the longest newer prefix of the processed records |
| Incremental.AcceptedNewer | getdata1014.py:126-142 | every kept record is newer than the snapshot's first key and in listing order; when the run stops short, the next processed record is not newer |
| Incremental.FirstRunKeepsAll | getdata1014.py:138 | without a snapshot every record on every processed page is kept |
| Incremental.EmptySnapshotRaises | getdata1014.py:138 | with an empty snapshot the run raises iff some processed page has a record, and it never keeps anything |
| Incremental.LastPageUnprocessed | getdata1014.py:131-132 | without a snapshot, against a server reporting `total` pages: pages n to `total` are fetched, but only pages n to `total - 1` are kept |
| Incremental.OnePageProcessesNothing | getdata1014.py:131-132 | a listing that reports one page is fetched once and contributes nothing, whatever the snapshot |
| Incremental.NoOpMerge | getdata1014.py:123-144 | snapshot [100, 99, 98] against a server with nothing newer: one fetch, nothing kept, and the output gains the snapshot unchanged |
| Incremental.GrowthMerge | getdata1014.py:123-144 | snapshot [100, 99] against a first page [102, 101, 100, 99] of two: one fetch, [102, 101] kept, merged rows [102, 101, 100, 99] |

## Left out

- `Fetcher`: HTTP, JSON decoding, timeouts and delays are I/O. The server is a finite sequence of decoded pages, and a
  failed fetch is `None`.
- Infinite servers: a server that never stops the loop is not representable, because the sequence is finite. The code
  would loop forever against such a server.
- `get_local_df`: reading the snapshot file is I/O. The snapshot is a parameter: `None` when there is no file, and the
  rows otherwise.
- `save_data`: writing the snapshot is I/O. The model states what would be written, namely the node's final output,
  and does not model the write.
- Record fields: JSON fields are rows of an integer key and other fields.
  - The `int()` conversions are assumed to succeed, so a `ValueError` on a non-numeric draw number is not modelled.
  - A `KeyError` on a malformed response is not modelled either.
- `Parser` and the other steps `fetch_parse_a` and `fetch_parse_bb`: they are domain scraping code. Like the lookup
  of a step by name with `getattr`, all steps are one total step function that receives the node's id, url, step
  name, input and output. A step that raises is not modelled.
- `Incremental.FetchParseB` stands on its own on a node of rows. It is not plugged into the step function. Its
  empty-snapshot error is reported as `crashed` and does not abort the pipeline run.
- `output_val=None`: this `SNode` default makes any later append fail. A node's initial output is always a sequence.
- `defaultdict` entries that `bfs` reads (`self.graph[node]`) are not inserted: `Graph.Succ` reads without inserting.
  Nothing the engine returns depends on those entries.
- Aliasing: records and lists are values, so list objects shared between nodes or configuration entries are not
  modelled.
- `init_fetcher_parser` and its globals are part of the I/O setup and are not modelled.
- Logging with `logger.info`: the logged ids are returned as a sequence per pipeline.
- Configuration shape: every node entry has an id, a url, a step name, an initial output and an optional
  `save_conf`. A `KeyError` for a missing `nodes`, `links`, `id`, `from` or `to` key is not modelled, and neither are
  unknown keyword arguments.
- Partial graph: after a `KeyError` the partially wired graph is discarded, as the exception does in the code.
- TaskGraph.Graph.Bfs: it requires `Consistent()`, meaning that every count equals the node's indegree. The code's
  `bfs` also runs on other graphs, but the engine only runs freshly loaded graphs, which are consistent.
- Incremental.Paginate: returns how many pages were fetched, not the list of page numbers. The loop numbers its
  requests 1, 2, 3 and so on, so the count determines them.
- Incremental.FetchParseB: reports how many pages were fetched, for the same reason.
