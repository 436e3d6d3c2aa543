/*
 * The incremental fetch-and-merge step `fetch_parse_b`: page through a
 * remote listing, newest records first, keep every record newer than the
 * local snapshot's watermark (the key of its first row), stop at the first
 * record that is not newer, then write prior output, new records and the
 * whole snapshot back as the node's output.
 */
module Incremental {
  import opened Wrappers
  import opened TaskGraph

  /** One record: its ordering key (the draw number) and the remaining fields. */
  datatype Row = Row(key: int, fields: seq<string>)

  /** One decoded response: the page count the server reports, and the page's records. */
  datatype Page = Page(pages: int, list: seq<Row>)

  /**
   * The server's answers to pages 1, 2, ...; `None` is a failed fetch
   * (`fetch_url` returned `None`), and so is every page past the end.
   */
  type Remote = seq<Option<Page>>

  /** What fetching page `n` returns. */
  function Fetch(remote: Remote, n: int): Option<Page>
  {
    if 1 <= n <= |remote| then remote[n - 1] else None
  }

  /**
   * Whether the loop ends at page `n`: the fetch failed, or the page counter,
   * already incremented, exceeds the reported page count. Page `n` is then
   * fetched but not processed.
   */
  predicate Stops(remote: Remote, n: int)
  {
    Fetch(remote, n).None? || n + 1 > Fetch(remote, n).value.pages
  }

  /** A record is kept when there is no snapshot, or its key exceeds the snapshot's first key. */
  predicate Newer(local: Option<seq<Row>>, r: Row)
  {
    local.None? || (local.value != [] && r.key > local.value[0].key)
  }

  /** `local_li`: the snapshot's rows, none when there is no snapshot. */
  function Baseline(local: Option<seq<Row>>): seq<Row>
  {
    if local.Some? then local.value else []
  }

  /** The index of the first record that is not newer, or `|list|` when they all are. */
  function Cut(list: seq<Row>, local: Option<seq<Row>>): (k: nat)
    ensures k <= |list|
    ensures forall j :: 0 <= j < k ==> Newer(local, list[j])
    ensures k < |list| ==> !Newer(local, list[k])
  {
    if list == [] || !Newer(local, list[0]) then 0
    else
      var k := Cut(list[1..], local);
      assert forall j :: 1 <= j < |list| ==> list[j] == list[1..][j - 1];
      1 + k
  }

  /** How a run of the loop ends: the records kept, how many pages were fetched, and whether it raised. */
  datatype Outcome = Outcome(accepted: seq<Row>, fetches: nat, crashed: bool)

  /** `o` after `fetches` pages that kept `acc`. */
  function Then(acc: seq<Row>, fetches: nat, o: Outcome): Outcome
  {
    Outcome(acc + o.accepted, fetches + o.fetches, o.crashed)
  }

  /**
   * The loop from page `n` on. A processed page keeps its leading newer
   * records; a record that is not newer ends the loop. An empty snapshot
   * (a file holding only the header) raises at the first record examined,
   * where its first row is read.
   */
  ghost function Scan(remote: Remote, local: Option<seq<Row>>, n: int): Outcome
    decreases |remote| - n
  {
    if Stops(remote, n) then Outcome([], 1, false)
    else
      var list := Fetch(remote, n).value.list;
      if list != [] && local == Some([]) then Outcome([], 1, true)
      else
        var k := Cut(list, local);
        if k < |list| then Outcome(list[..k], 1, false)
        else
          var rest := Scan(remote, local, n + 1);
          Outcome(list + rest.accepted, rest.fetches + 1, rest.crashed)
  }

  /** The records of the pages the loop processes from page `n` on, in order, ignoring the watermark. */
  ghost function Stream(remote: Remote, n: int): seq<Row>
    decreases |remote| - n
  {
    if Stops(remote, n) then [] else Fetch(remote, n).value.list + Stream(remote, n + 1)
  }

  /** The records of pages `n` to `m - 1`, a failed fetch contributing none. */
  function Pages(remote: Remote, n: int, m: int): seq<Row>
    decreases m - n
  {
    if m <= n then [] else (if Fetch(remote, n).Some? then Fetch(remote, n).value.list else []) + Pages(remote, n + 1, m)
  }

  /**
   * The inner `for resitem in data['value']['list']` loop: append the
   * records up to the first one that is not newer; `cut` says whether one
   * was found (which clears `need_update`). With an empty snapshot the first
   * record raises and nothing is appended.
   */
  method ScanPage(node: SNode<Row>, list: seq<Row>, local: Option<seq<Row>>) returns (cut: bool, crashed: bool)
    modifies node`output
    ensures crashed <==> list != [] && local == Some([])
    ensures crashed ==> node.output == old(node.output)
    ensures !crashed ==> cut == (Cut(list, local) < |list|)
    ensures !crashed ==> node.output == old(node.output) + list[..Cut(list, local)]
  {
    cut, crashed := false, false;
    var i := 0;
    while i < |list|
      invariant i <= |list| && (i > 0 ==> local != Some([]))
      invariant forall j :: 0 <= j < i ==> Newer(local, list[j])
      invariant node.output == old(node.output) + list[..i]
    {
      var rec := list[i];
      if local.Some? && local.value == [] {
        return false, true;
      }
      if local.None? || rec.key > local.value[0].key {
        node.output := node.output + [rec];
      } else {
        cut := true;
        break;
      }
      assert list[..i + 1] == list[..i] + [rec];
      i := i + 1;
    }
  }

  /**
   * One pass of `while need_update` at page `numpage`, `acc` kept so far:
   * fetch the page and, unless it stops the loop, scan it. `kept` is what
   * was appended; `more` is whether the loop goes on.
   */
  method FetchPage(node: SNode<Row>, remote: Remote, local: Option<seq<Row>>, numpage: int, ghost acc: seq<Row>)
      returns (more: bool, crashed: bool, ghost kept: seq<Row>)
    requires 1 <= numpage
    modifies node`output
    ensures node.output == old(node.output) + kept
    ensures var o := Then(acc, numpage - 1, Scan(remote, local, numpage));
            && (crashed ==> o == Outcome(acc + kept, numpage, true))
            && (!crashed && !more ==> o == Outcome(acc + kept, numpage, false))
            && (!crashed && more ==> numpage <= |remote| && o == Then(acc + kept, numpage, Scan(remote, local, numpage + 1)))
  {
    ScanNext(remote, local, numpage, acc);
    var data := Fetch(remote, numpage);
    if data.None? || numpage + 1 > data.value.pages {
      return false, false, [];
    }
    var list := data.value.list;
    var cut;
    cut, crashed := ScanPage(node, list, local);
    kept := if crashed then [] else list[..Cut(list, local)];
    more := !cut;
  }

  /**
   * The `while need_update` loop: pages 1, 2, ... are fetched in turn and
   * the kept records are appended to the output, until the run ends or the
   * empty-snapshot error escapes. `fetched` is the number of pages fetched.
   */
  method Paginate(node: SNode<Row>, remote: Remote, local: Option<seq<Row>>) returns (fetched: nat, crashed: bool)
    modifies node`output
    ensures var o := Scan(remote, local, 1);
            crashed == o.crashed && node.output == old(node.output) + o.accepted && fetched == o.fetches
  {
    var needUpdate := true;
    var numpage := 1;
    ghost var acc: seq<Row> := [];
    while needUpdate
      invariant 1 <= numpage && (needUpdate ==> numpage <= |remote| + 1)
      invariant node.output == old(node.output) + acc
      invariant needUpdate ==> Then(acc, numpage - 1, Scan(remote, local, numpage)) == Scan(remote, local, 1)
      invariant !needUpdate ==> Scan(remote, local, 1) == Outcome(acc, numpage - 1, false)
      decreases |remote| + 2 - numpage
    {
      var more, crash, kept := FetchPage(node, remote, local, numpage, acc);
      numpage := numpage + 1;
      acc := acc + kept;
      if crash {
        return numpage - 1, true;
      }
      needUpdate := more;
    }
    fetched, crashed := numpage - 1, false;
  }

  /**
   * `fetch_parse_b`, given the server and what `get_local_df` returned: the
   * output gains the kept records and then the whole snapshot, unless the
   * empty-snapshot error escapes. `fetched` is the number of pages fetched.
   */
  method FetchParseB(node: SNode<Row>, remote: Remote, local: Option<seq<Row>>)
      returns (fetched: nat, crashed: bool)
    modifies node`output
    ensures var o := Scan(remote, local, 1);
            && crashed == o.crashed && fetched == o.fetches
            && node.output == old(node.output) + o.accepted + (if crashed then [] else Baseline(local))
  {
    var baseline := Baseline(local);
    fetched, crashed := Paginate(node, remote, local);
    if !crashed {
      node.output := node.output + baseline;
    }
  }

  /** One turn of the loop at page `n`, after `n - 1` fetches that kept `acc`. */
  lemma ScanNext(remote: Remote, local: Option<seq<Row>>, n: int, acc: seq<Row>)
    requires 1 <= n
    ensures var o := Then(acc, n - 1, Scan(remote, local, n));
            if Stops(remote, n) then o == Outcome(acc, n, false)
            else
              var list := Fetch(remote, n).value.list;
              var k := Cut(list, local);
              if list != [] && local == Some([]) then o == Outcome(acc, n, true)
              else if k < |list| then o == Outcome(acc + list[..k], n, false)
              else o == Then(acc + list, n, Scan(remote, local, n + 1)) && list[..k] == list
  {
    if !Stops(remote, n) {
      var list := Fetch(remote, n).value.list;
      var rest := Scan(remote, local, n + 1);
      assert acc + (list + rest.accepted) == (acc + list) + rest.accepted;
    }
  }

  /** `Cut` is the unique index with only newer records before it and a record that is not newer at it. */
  lemma CutUnique(s: seq<Row>, local: Option<seq<Row>>, k: nat)
    requires k <= |s| && forall j :: 0 <= j < k ==> Newer(local, s[j])
    requires k < |s| ==> !Newer(local, s[k])
    ensures Cut(s, local) == k
  {
  }

  lemma CutAppend(a: seq<Row>, b: seq<Row>, local: Option<seq<Row>>)
    ensures Cut(a + b, local) == if Cut(a, local) < |a| then Cut(a, local) else |a| + Cut(b, local)
  {
    var k := Cut(a, local);
    assert forall j :: 0 <= j < |a| ==> (a + b)[j] == a[j];
    if k < |a| {
      CutUnique(a + b, local, k);
    } else {
      var c := Cut(b, local);
      assert forall j :: 0 <= j < |b| ==> (a + b)[|a| + j] == b[j];
      CutUnique(a + b, local, |a| + c);
    }
  }

  /**
   * With a usable watermark (or none), the run never raises and keeps exactly
   * the longest newer prefix of the processed records: nothing after the
   * first record that is not newer, and nothing from the page that stops the loop.
   */
  lemma {:induction false} ScanKeepsNewerPrefix(remote: Remote, local: Option<seq<Row>>, n: int)
    requires local != Some([])
    ensures var o, s := Scan(remote, local, n), Stream(remote, n);
            !o.crashed && o.accepted == s[..Cut(s, local)]
    decreases |remote| - n
  {
    if !Stops(remote, n) {
      var list := Fetch(remote, n).value.list;
      var rest := Stream(remote, n + 1);
      CutAppend(list, rest, local);
      if Cut(list, local) == |list| {
        ScanKeepsNewerPrefix(remote, local, n + 1);
        assert (list + rest)[..|list| + Cut(rest, local)] == list + rest[..Cut(rest, local)];
      } else {
        assert (list + rest)[..Cut(list, local)] == list[..Cut(list, local)];
      }
    }
  }

  /** Every kept record is newer than the watermark, and when the run stops short the next processed record is not. */
  lemma AcceptedNewer(remote: Remote, local: Option<seq<Row>>)
    requires local != Some([])
    ensures var o, s := Scan(remote, local, 1), Stream(remote, 1);
            && o.accepted <= s
            && (forall i :: 0 <= i < |o.accepted| ==> local.None? || o.accepted[i].key > local.value[0].key)
            && (|o.accepted| < |s| ==> local.Some? && s[|o.accepted|].key <= local.value[0].key)
  {
    ScanKeepsNewerPrefix(remote, local, 1);
  }

  /** Without a snapshot (the first run) every processed record is kept. */
  lemma FirstRunKeepsAll(remote: Remote)
    ensures Scan(remote, None, 1) == Outcome(Stream(remote, 1), Scan(remote, None, 1).fetches, false)
  {
    ScanKeepsNewerPrefix(remote, None, 1);
  }

  /**
   * An empty snapshot raises exactly when some record is examined, and
   * then before any record is kept.
   */
  lemma {:induction false} EmptySnapshotRaises(remote: Remote, n: int)
    ensures var o := Scan(remote, Some([]), n);
            (o.crashed <==> Stream(remote, n) != []) && o.accepted == []
    decreases |remote| - n
  {
    if !Stops(remote, n) && Fetch(remote, n).value.list == [] {
      EmptySnapshotRaises(remote, n + 1);
    }
  }

  /**
   * A server that reports `total` pages on every page from `n` on, with no
   * snapshot: pages `n` to `total` are all fetched, but only pages `n` to
   * `total - 1` are processed; the last page's records are never kept.
   */
  lemma {:induction false} LastPageUnprocessed(remote: Remote, n: int, total: int)
    requires 1 <= n <= total
    requires forall m :: n <= m <= total ==> Fetch(remote, m).Some? && Fetch(remote, m).value.pages == total
    ensures Scan(remote, None, n) == Outcome(Pages(remote, n, total), total - n + 1, false)
    decreases total - n
  {
    if n < total {
      assert !Stops(remote, n);
      LastPageUnprocessed(remote, n + 1, total);
    }
  }

  /** A server that reports a single page: it is fetched, and nothing is processed, whatever the snapshot. */
  lemma OnePageProcessesNothing(remote: Remote, local: Option<seq<Row>>)
    requires Fetch(remote, 1).Some? && Fetch(remote, 1).value.pages <= 1
    ensures Scan(remote, local, 1) == Outcome([], 1, false)
  {
  }

  /** Rows with the given keys and no other fields. */
  function Keyed(keys: seq<int>): (rows: seq<Row>)
    ensures |rows| == |keys| && forall i :: 0 <= i < |keys| ==> rows[i] == Row(keys[i], [])
  {
    if keys == [] then [] else [Row(keys[0], [])] + Keyed(keys[1..])
  }

  /**
   * Snapshot `[100, 99, 98]`, server offering nothing newer: nothing is
   * kept, so the written output is the prior output followed by the
   * snapshot unchanged.
   */
  lemma NoOpMerge()
    ensures var snapshot := Keyed([100, 99, 98]);
            var remote := [Some(Page(2, snapshot)), Some(Page(2, snapshot))];
            && Scan(remote, Some(snapshot), 1) == Outcome([], 1, false)
            && Scan(remote, Some(snapshot), 1).accepted + Baseline(Some(snapshot)) == snapshot
  {
    var snapshot := Keyed([100, 99, 98]);
    assert Cut(snapshot, Some(snapshot)) == 0;
  }

  /**
   * Snapshot `[100, 99]`, first page `[102, 101, 100, 99]` of two: the run
   * stops at 100 after one fetch, and the merged rows are `[102, 101, 100, 99]`.
   */
  lemma GrowthMerge()
    ensures var remote := [Some(Page(2, Keyed([102, 101, 100, 99]))), Some(Page(2, Keyed([98, 97])))];
            var local := Some(Keyed([100, 99]));
            && Scan(remote, local, 1) == Outcome(Keyed([102, 101]), 1, false)
            && Scan(remote, local, 1).accepted + Baseline(local) == Keyed([102, 101, 100, 99])
  {
    var list := [Row(102, []), Row(101, []), Row(100, []), Row(99, [])];
    assert Keyed([102, 101, 100, 99]) == list;
    assert Keyed([100, 99]) == list[2..];
    CutUnique(list, Some(list[2..]), 2);
    assert list[..2] == Keyed([102, 101]);
  }
}
