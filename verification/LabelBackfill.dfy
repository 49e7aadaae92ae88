/** Paging through a labeler's existing labels, with checkpoints, crashes and resumption. */
module LabelBackfill {
  const MAX_BACKFILL_PAGES: nat := 40_000
  const BACKFILL_CHECKPOINT_INTERVAL: nat := 4

  // The response to one request: how many labels it holds, and the next cursor, "" at the end.
  datatype Page = Page(labels: nat, next: string)

  // What the labeler answers to each cursor, unchanged from run to run.
  type Server = string -> Page

  // What may go wrong in a run: it stops at its `stopAt`-th page (before the request,
  // or after the upsert but before the checkpoint), checkpoint writes may fail, and the
  // database may refuse some or all labels of a page.
  datatype Disturbance = Disturbance(stopAt: nat, afterUpsert: bool, saveOk: nat -> bool, refused: nat -> nat)

  datatype Outcome = Complete | PageCapExceeded | Stopped

  // `handed`: the cursors of the pages handed to upsert so far, over all runs.
  datatype Progress = Progress(outcome: Outcome, checkpoint: string, handed: seq<string>, total: nat, rejected: nat)

  // Fetch with runBackfill's page handler, from `cursor` after `pages` pages of this run.
  function Pages(server: Server, d: Disturbance, cursor: string, pages: nat, since: nat, checkpoint: string,
                 handed: seq<string>, total: nat, rejected: nat): Progress
    decreases MAX_BACKFILL_PAGES - pages
  {
    if pages >= MAX_BACKFILL_PAGES then Progress(PageCapExceeded, checkpoint, handed, total, rejected)
    else if pages == d.stopAt && !d.afterUpsert then Progress(Stopped, checkpoint, handed, total, rejected)
    else
      var page := server(cursor);
      var handed' := handed + [cursor];
      var total' := total + page.labels;
      var rejected' := rejected + Refused(d, page, pages);
      if pages == d.stopAt then Progress(Stopped, checkpoint, handed', total', rejected')
      else
        var due := page.next != "" && since + 1 >= BACKFILL_CHECKPOINT_INTERVAL;
        var checkpoint' := if due && d.saveOk(pages) then page.next else checkpoint;
        if page.next == "" || page.next == cursor then Progress(Complete, checkpoint', handed', total', rejected')
        else
          var since' := if due then 0 else since + 1;
          Pages(server, d, page.next, pages + 1, since', checkpoint', handed', total', rejected')
  }

  // How many labels of this page upsertLabels could not store.
  function Refused(d: Disturbance, page: Page, pages: nat): nat {
    if d.refused(pages) <= page.labels then d.refused(pages) else page.labels
  }

  class Backfiller {
    var checkpoint: string          // config row labeler_backfill_cursor, "" when absent
    var seqCursor: int              // config row labeler_cursor, 0 when absent
    ghost var handed: seq<string>

    ghost function Stored(): Store
      reads this
    {
      Store(checkpoint, handed)
    }

    constructor ()
      ensures checkpoint == "" && seqCursor == 0 && handed == []
    {
      checkpoint, seqCursor, handed := "", 0, [];
    }

    // runBackfill.  The checkpoint read, the clearing delete and the sentinel write may each fail.
    // The refused labels are counted and nothing else: page, checkpoint and sentinel go on as if they were stored.
    method RunBackfill(server: Server, input: RunInput, sentinelOk: bool)
      returns (outcome: Outcome, total: nat, totalRejected: nat)
      modifies this
      ensures var p := RunFrom(server, old(Stored()), input);
              && outcome == p.outcome && total == p.total && totalRejected == p.rejected
              && Stored() == AfterRun(server, old(Stored()), input)
              && seqCursor == if outcome.Complete? && p.total > 0 && sentinelOk then -1 else old(seqCursor)
    {
      outcome, total, totalRejected := FetchPages(server, input.d, if input.loadOk then checkpoint else "");
      if outcome.Complete? {
        if input.clearOk {
          checkpoint := "";
        }
        if total > 0 && sentinelOk {
          seqCursor := -1;
        }
      }
    }

    // Fetch with runBackfill's page handler.
    method FetchPages(server: Server, d: Disturbance, startCursor: string)
      returns (outcome: Outcome, total: nat, totalRejected: nat)
      modifies this`checkpoint, this`handed
      ensures Progress(outcome, checkpoint, handed, total, totalRejected)
           == Pages(server, d, startCursor, 0, 0, old(checkpoint), old(handed), 0, 0)
    {
      var cursor := startCursor;
      total, totalRejected := 0, 0;
      var pages, since: nat := 0, 0;
      ghost var goal := Pages(server, d, startCursor, 0, 0, checkpoint, handed, 0, 0);
      while true
        invariant pages <= MAX_BACKFILL_PAGES
        invariant OnCourse(server, d, cursor, pages, since,
                           Progress(Stopped, checkpoint, handed, total, totalRejected), goal)
        decreases MAX_BACKFILL_PAGES - pages
      {
        ghost var was := Progress(Stopped, checkpoint, handed, total, totalRejected);
        OnePage(server, d, cursor, pages, since, was, goal);
        if pages >= MAX_BACKFILL_PAGES {
          return PageCapExceeded, total, totalRejected;
        }
        if pages == d.stopAt && !d.afterUpsert {
          return Stopped, total, totalRejected;
        }
        var page := server(cursor);
        handed := handed + [cursor];
        total, totalRejected := total + page.labels, totalRejected + Refused(d, page, pages);
        if pages == d.stopAt {
          return Stopped, total, totalRejected;
        }
        since := Checkpoint(page.next, since + 1, d.saveOk(pages));
        if page.next == "" || page.next == cursor {
          return Complete, total, totalRejected;
        }
        cursor := page.next;
        pages := pages + 1;
      }
    }

    // The end of the page handler: every few pages the next cursor is stored.
    method Checkpoint(next: string, since: nat, saveOk: bool) returns (r: nat)
      modifies this`checkpoint
      ensures var due := next != "" && since >= BACKFILL_CHECKPOINT_INTERVAL;
              r == (if due then 0 else since) && checkpoint == if due && saveOk then next else old(checkpoint)
    {
      r := since;
      if next != "" && since >= BACKFILL_CHECKPOINT_INTERVAL {
        if saveOk {
          checkpoint := next;
        }
        r := 0;
      }
    }

    // backfillIfNeeded: nothing to do when it is switched off, or once a subscription cursor is stored.
    method BackfillIfNeeded(skip: bool, server: Server, input: RunInput, sentinelOk: bool)
      modifies this
      ensures skip || old(seqCursor) != 0 ==> Stored() == old(Stored()) && seqCursor == old(seqCursor)
      ensures !(skip || old(seqCursor) != 0) ==>
              var p := RunFrom(server, old(Stored()), input);
              && Stored() == AfterRun(server, old(Stored()), input)
              && seqCursor == if p.outcome.Complete? && p.total > 0 && sentinelOk then -1 else old(seqCursor)
    {
      if skip || seqCursor != 0 {
        return;
      }
      var outcome, total, rejected := RunBackfill(server, input, sentinelOk);
    }
  }

  // From here the run ends in `goal`; `now` is what it has done so far.
  ghost predicate OnCourse(server: Server, d: Disturbance, cursor: string, pages: nat, since: nat, now: Progress,
                           goal: Progress) {
    goal == Pages(server, d, cursor, pages, since, now.checkpoint, now.handed, now.total, now.rejected)
  }

  lemma OnePage(server: Server, d: Disturbance, cursor: string, pages: nat, since: nat, now: Progress, goal: Progress)
    requires OnCourse(server, d, cursor, pages, since, now, goal)
    ensures pages >= MAX_BACKFILL_PAGES ==> goal == now.(outcome := PageCapExceeded)
    ensures pages < MAX_BACKFILL_PAGES && pages == d.stopAt && !d.afterUpsert ==> goal == now.(outcome := Stopped)
    ensures pages < MAX_BACKFILL_PAGES && (pages != d.stopAt || d.afterUpsert) ==>
              var page := server(cursor);
              var due := page.next != "" && since + 1 >= BACKFILL_CHECKPOINT_INTERVAL;
              var more := now.(handed := now.handed + [cursor], total := now.total + page.labels,
                               rejected := now.rejected + Refused(d, page, pages));
              var saved := more.(checkpoint := if due && d.saveOk(pages) then page.next else now.checkpoint);
              if pages == d.stopAt then goal == more.(outcome := Stopped)
              else if page.next == "" || page.next == cursor then goal == saved.(outcome := Complete)
              else OnCourse(server, d, page.next, pages + 1, if due then 0 else since + 1, saved, goal)
  {
  }

  // ---------- a stable chain of pages ----------

  // The pages in order, named by their distinct cursors; the first cursor is empty, the last page has no next.
  ghost predicate Chain(server: Server, cursors: seq<string>) {
    && |cursors| > 0 && cursors[0] == ""
    && (forall i, j | 0 <= i < j < |cursors| :: cursors[i] != cursors[j])
    && (forall i | 0 <= i < |cursors| :: server(cursors[i]).next == if i + 1 < |cursors| then cursors[i + 1] else "")
  }

  ghost predicate HandedUpTo(cursors: seq<string>, handed: seq<string>, k: nat)
    requires k <= |cursors|
  {
    forall i | 0 <= i < k :: cursors[i] in handed
  }

  // The checkpoint names a page all of whose predecessors were handed over.
  ghost predicate Sound(cursors: seq<string>, checkpoint: string, handed: seq<string>) {
    exists k: nat :: k < |cursors| && cursors[k] == checkpoint && HandedUpTo(cursors, handed, k)
  }

  // From any page on, stops and failing writes included: the checkpoint stays
  // sound, completion means every page was handed over, and no run exceeds the cap.
  lemma {:induction false} PagesSound(server: Server, d: Disturbance, cursors: seq<string>, i: nat, pages: nat,
                                      since: nat,
                                      checkpoint: string, handed: seq<string>, total: nat, rejected: nat)
    requires Chain(server, cursors) && i < |cursors| && pages <= MAX_BACKFILL_PAGES
    requires HandedUpTo(cursors, handed, i) && Sound(cursors, checkpoint, handed)
    ensures var p := Pages(server, d, cursors[i], pages, since, checkpoint, handed, total, rejected);
            && Sound(cursors, p.checkpoint, p.handed)
            && (p.outcome.Complete? ==> HandedUpTo(cursors, p.handed, |cursors|))
            && handed <= p.handed && |p.handed| - |handed| <= MAX_BACKFILL_PAGES - pages
    decreases MAX_BACKFILL_PAGES - pages
  {
    var page := server(cursors[i]);
    var handed' := handed + [cursors[i]];
    var k: nat :| k < |cursors| && cursors[k] == checkpoint && HandedUpTo(cursors, handed, k);
    assert HandedUpTo(cursors, handed', i + 1) && HandedUpTo(cursors, handed', k);
    assert Sound(cursors, checkpoint, handed');
    if pages < MAX_BACKFILL_PAGES && !(pages == d.stopAt) && i + 1 < |cursors| {
      assert cursors[i + 1] != cursors[0] && cursors[i + 1] != cursors[i];
      var due := since + 1 >= BACKFILL_CHECKPOINT_INTERVAL;
      var checkpoint' := if due && d.saveOk(pages) then page.next else checkpoint;
      assert Sound(cursors, checkpoint', handed') by {
        assert cursors[i + 1] == page.next && HandedUpTo(cursors, handed', i + 1);
      }
      PagesSound(server, d, cursors, i + 1, pages + 1, if due then 0 else since + 1, checkpoint', handed',
                 total + page.labels, rejected + Refused(d, page, pages));
    } else if pages < MAX_BACKFILL_PAGES && pages != d.stopAt {
      assert page.next == "";
      var p := Pages(server, d, cursors[i], pages, since, checkpoint, handed, total, rejected);
      assert p == Progress(Complete, checkpoint, handed', total + page.labels, rejected + Refused(d, page, pages));
    }
  }

  // ---------- many runs ----------

  datatype Store = Store(checkpoint: string, handed: seq<string>)

  datatype RunInput = RunInput(d: Disturbance, loadOk: bool, clearOk: bool)

  function RunFrom(server: Server, s: Store, input: RunInput): Progress {
    Pages(server, input.d, if input.loadOk then s.checkpoint else "", 0, 0, s.checkpoint, s.handed, 0, 0)
  }

  function AfterRun(server: Server, s: Store, input: RunInput): Store {
    var p := RunFrom(server, s, input);
    Store(if p.outcome.Complete? && input.clearOk then "" else p.checkpoint, p.handed)
  }

  ghost predicate Runs(server: Server, stores: seq<Store>, inputs: seq<RunInput>) {
    && |stores| == |inputs| + 1 && stores[0] == Store("", [])
    && forall i | 0 <= i < |inputs| :: stores[i + 1] == AfterRun(server, stores[i], inputs[i])
  }

  lemma OneRunSound(server: Server, cursors: seq<string>, s: Store, input: RunInput)
    requires Chain(server, cursors) && Sound(cursors, s.checkpoint, s.handed)
    ensures Sound(cursors, AfterRun(server, s, input).checkpoint, AfterRun(server, s, input).handed)
    ensures RunFrom(server, s, input).outcome.Complete? ==>
            HandedUpTo(cursors, AfterRun(server, s, input).handed, |cursors|)
    ensures s.handed <= AfterRun(server, s, input).handed
    ensures |AfterRun(server, s, input).handed| <= |s.handed| + MAX_BACKFILL_PAGES
  {
    var k: nat :| k < |cursors| && cursors[k] == s.checkpoint && HandedUpTo(cursors, s.handed, k);
    PagesSound(server, input.d, cursors, if input.loadOk then k else 0, 0, 0, s.checkpoint, s.handed, 0, 0);
    var s' := AfterRun(server, s, input);
    if s'.checkpoint == "" {
      assert cursors[0] == s'.checkpoint && HandedUpTo(cursors, s'.handed, 0);
    }
  }

  predicate Completes(server: Server, s: Store, input: RunInput) {
    RunFrom(server, s, input).outcome.Complete?
  }

  // Across any number of runs that stop and resume anywhere, the stored checkpoint
  // never skips a page; once one run completes, every page has been handed over.
  lemma {:induction false} CheckpointNeverSkips(server: Server, cursors: seq<string>, stores: seq<Store>,
                                                inputs: seq<RunInput>, i: nat)
    requires Chain(server, cursors) && Runs(server, stores, inputs) && i < |stores|
    ensures Sound(cursors, stores[i].checkpoint, stores[i].handed)
    ensures (exists j :: 0 <= j < i && Completes(server, stores[j], inputs[j])) ==>
              HandedUpTo(cursors, stores[i].handed, |cursors|)
    decreases i
  {
    if i == 0 {
      assert cursors[0] == stores[0].checkpoint && HandedUpTo(cursors, stores[0].handed, 0);
    } else {
      CheckpointNeverSkips(server, cursors, stores, inputs, i - 1);
      OneRunSound(server, cursors, stores[i - 1], inputs[i - 1]);
      if j :| 0 <= j < i && Completes(server, stores[j], inputs[j]) {
        if j < i - 1 {
          assert HandedUpTo(cursors, stores[i - 1].handed, |cursors|);
        }
      }
    }
  }

  // ---------- progress ----------

  predicate Undisturbed(input: RunInput) {
    input.d.stopAt >= MAX_BACKFILL_PAGES && input.loadOk
  }

  ghost predicate SavesWork(input: RunInput) {
    forall n :: input.d.saveOk(n)
  }

  // A run that nothing interrupts completes exactly when the pages left fit under
  // the cap; otherwise, if its checkpoints are written, it has advanced by the full cap.
  lemma {:induction false} PagesAdvance(server: Server, d: Disturbance, cursors: seq<string>, i: nat, pages: nat,
                                        checkpoint: string, handed: seq<string>, total: nat, rejected: nat)
    requires Chain(server, cursors) && i < |cursors| && pages <= MAX_BACKFILL_PAGES && d.stopAt >= MAX_BACKFILL_PAGES
    ensures var left := MAX_BACKFILL_PAGES - pages;
            var since := pages % BACKFILL_CHECKPOINT_INTERVAL;
            var p := Pages(server, d, cursors[i], pages, since, checkpoint, handed, total, rejected);
            && (p.outcome.Complete? <==> |cursors| - i <= left) && !p.outcome.Stopped?
            && ((|cursors| - i > left && (pages % BACKFILL_CHECKPOINT_INTERVAL == 0 ==> checkpoint == cursors[i]) &&
                 (forall n :: d.saveOk(n))) ==> p.checkpoint == cursors[i + left])
    decreases MAX_BACKFILL_PAGES - pages
  {
    if pages < MAX_BACKFILL_PAGES && i + 1 < |cursors| {
      assert cursors[i + 1] != cursors[0] && cursors[i + 1] != cursors[i];
      var page := server(cursors[i]);
      var since := pages % BACKFILL_CHECKPOINT_INTERVAL;
      var due := since + 1 >= BACKFILL_CHECKPOINT_INTERVAL;
      assert (pages + 1) % BACKFILL_CHECKPOINT_INTERVAL == if due then 0 else since + 1;
      var checkpoint' := if due && d.saveOk(pages) then page.next else checkpoint;
      PagesAdvance(server, d, cursors, i + 1, pages + 1, checkpoint', handed + [cursors[i]], total + page.labels,
                   rejected + Refused(d, page, pages));
    } else if pages < MAX_BACKFILL_PAGES {
      assert server(cursors[i]).next == "" && pages != d.stopAt;
    }
  }

  lemma UndisturbedRun(server: Server, cursors: seq<string>, s: Store, input: RunInput, k: nat)
    requires Chain(server, cursors) && k < |cursors| && s.checkpoint == cursors[k] && Undisturbed(input)
    ensures RunFrom(server, s, input).outcome.Complete? <==> |cursors| - k <= MAX_BACKFILL_PAGES
    ensures SavesWork(input) && |cursors| - k > MAX_BACKFILL_PAGES ==>
            AfterRun(server, s, input).checkpoint == cursors[k + MAX_BACKFILL_PAGES]
  {
    PagesAdvance(server, input.d, cursors, k, 0, s.checkpoint, s.handed, 0, 0);
  }

  // So a chain of any length is finished after as many undisturbed runs as it has capfuls of pages.
  lemma {:induction false} RunsFinish(server: Server, cursors: seq<string>, stores: seq<Store>,
                                      inputs: seq<RunInput>, n: nat)
    requires Chain(server, cursors) && Runs(server, stores, inputs) && n < |inputs|
    requires forall i | 0 <= i < |inputs| :: Undisturbed(inputs[i]) && SavesWork(inputs[i])
    requires n * MAX_BACKFILL_PAGES < |cursors| <= (n + 1) * MAX_BACKFILL_PAGES
    ensures RunFrom(server, stores[n], inputs[n]).outcome.Complete?
    ensures HandedUpTo(cursors, stores[n + 1].handed, |cursors|)
  {
    StartsAt(server, cursors, stores, inputs, n);
    UndisturbedRun(server, cursors, stores[n], inputs[n], n * MAX_BACKFILL_PAGES);
    CheckpointNeverSkips(server, cursors, stores, inputs, n + 1);
  }

  lemma {:induction false} StartsAt(server: Server, cursors: seq<string>, stores: seq<Store>,
                                    inputs: seq<RunInput>, n: nat)
    requires Chain(server, cursors) && Runs(server, stores, inputs) && n < |inputs|
    requires forall i | 0 <= i < |inputs| :: Undisturbed(inputs[i]) && SavesWork(inputs[i])
    requires n * MAX_BACKFILL_PAGES < |cursors|
    ensures stores[n].checkpoint == cursors[n * MAX_BACKFILL_PAGES]
    decreases n
  {
    if n > 0 {
      StartsAt(server, cursors, stores, inputs, n - 1);
      UndisturbedRun(server, cursors, stores[n - 1], inputs[n - 1], (n - 1) * MAX_BACKFILL_PAGES);
    }
  }

  // ---------- pages whose labels were refused ----------

  // How many pages a run gets through, of those left, after `pages` of them.
  function Reach(d: Disturbance, pages: nat, left: nat): nat {
    var stop := if d.afterUpsert then d.stopAt + 1 else d.stopAt;
    var end := if stop <= MAX_BACKFILL_PAGES then stop else MAX_BACKFILL_PAGES;
    if end <= pages then 0 else if left <= end - pages then left else end - pages
  }

  lemma {:induction false} RunHands(server: Server, d: Disturbance, cursors: seq<string>, i: nat, pages: nat,
                                    since: nat,
                                    checkpoint: string, handed: seq<string>, total: nat, rejected: nat)
    requires Chain(server, cursors) && i < |cursors| && pages <= MAX_BACKFILL_PAGES && pages <= d.stopAt
    ensures Pages(server, d, cursors[i], pages, since, checkpoint, handed, total, rejected).handed ==
            handed + cursors[i..i + Reach(d, pages, |cursors| - i)]
    decreases MAX_BACKFILL_PAGES - pages
  {
    var page := server(cursors[i]);
    var handed' := handed + [cursors[i]];
    var n := Reach(d, pages, |cursors| - i);
    assert n > 0 ==> cursors[i..i + n] == [cursors[i]] + cursors[i + 1..i + n];
    if pages < MAX_BACKFILL_PAGES && pages < d.stopAt && i + 1 < |cursors| {
      assert cursors[i + 1] != cursors[0] && cursors[i + 1] != cursors[i];
      var due := since + 1 >= BACKFILL_CHECKPOINT_INTERVAL;
      RunHands(server, d, cursors, i + 1, pages + 1, if due then 0 else since + 1,
               if due && d.saveOk(pages) then page.next else checkpoint, handed', total + page.labels,
               rejected + Refused(d, page, pages));
    } else if pages < MAX_BACKFILL_PAGES && pages < d.stopAt {
      assert page.next == "";
    }
  }

  // Nothing that a run does depends on which labels are refused, but for their count.
  lemma {:induction false} RefusalsAreOnlyCounted(server: Server, d: Disturbance, refused: nat -> nat, cursor: string,
                                                  pages: nat, since: nat, checkpoint: string, handed: seq<string>,
                                                  total: nat, a: nat, b: nat)
    ensures var p := Pages(server, d, cursor, pages, since, checkpoint, handed, total, a);
            var q := Pages(server, d.(refused := refused), cursor, pages, since, checkpoint, handed, total, b);
            q == p.(rejected := q.rejected)
    decreases MAX_BACKFILL_PAGES - pages
  {
    if pages < MAX_BACKFILL_PAGES && pages != d.stopAt {
      var page, e := server(cursor), d.(refused := refused);
      var due := page.next != "" && since + 1 >= BACKFILL_CHECKPOINT_INTERVAL;
      RefusalsAreOnlyCounted(server, d, refused, page.next, pages + 1, if due then 0 else since + 1,
                             if due && d.saveOk(pages) then page.next else checkpoint, handed + [cursor],
                             total + page.labels, a + Refused(d, page, pages), b + Refused(e, page, pages));
    }
  }

  // The run asks for this page.
  predicate Fetches(server: Server, s: Store, input: RunInput, cursor: string) {
    var handed := RunFrom(server, s, input).handed;
    |s.handed| <= |handed| && cursor in handed[|s.handed|..]
  }

  lemma FetchesIff(server: Server, cursors: seq<string>, s: Store, input: RunInput, start: nat, j: nat)
    requires Chain(server, cursors) && start < |cursors| && j < |cursors|
    requires cursors[start] == if input.loadOk then s.checkpoint else ""
    ensures Fetches(server, s, input, cursors[j]) <==> start <= j < start + Reach(input.d, 0, |cursors| - start)
  {
    var n := Reach(input.d, 0, |cursors| - start);
    HandedPart(server, cursors, s, input, start);
    Among(cursors, start, n, j);
  }

  lemma HandedPart(server: Server, cursors: seq<string>, s: Store, input: RunInput, start: nat)
    requires Chain(server, cursors) && start < |cursors|
    requires cursors[start] == if input.loadOk then s.checkpoint else ""
    ensures var n, handed := Reach(input.d, 0, |cursors| - start), RunFrom(server, s, input).handed;
            |s.handed| <= |handed| && handed[|s.handed|..] == cursors[start..start + n]
  {
    RunHands(server, input.d, cursors, start, 0, 0, s.checkpoint, s.handed, 0, 0);
    var n := Reach(input.d, 0, |cursors| - start);
    assert (s.handed + cursors[start..start + n])[|s.handed|..] == cursors[start..start + n];
  }

  lemma Among(cursors: seq<string>, start: nat, n: nat, j: nat)
    requires start + n <= |cursors| && j < |cursors|
    requires forall i, k | 0 <= i < k < |cursors| :: cursors[i] != cursors[k]
    ensures cursors[j] in cursors[start..start + n] <==> start <= j < start + n
  {
    var part := cursors[start..start + n];
    if start <= j < start + n {
      assert part[j - start] == cursors[j];
    }
    if cursors[j] in part {
      var i :| 0 <= i < n && part[i] == cursors[j];
      assert cursors[start + i] == cursors[j];
    }
  }

  // A page whose labels were all refused is asked for again by exactly the later runs that start
  // at or before it and get that far, as every other page is: a run starts at the stored
  // checkpoint, or at the first page when that cannot be read, whatever was refused.
  lemma RefusedPageComesBackIff(server: Server, cursors: seq<string>, s: Store, input: RunInput, start: nat, j: nat,
                                refused: nat -> nat)
    requires Chain(server, cursors) && start < |cursors| && j < |cursors|
    requires cursors[start] == if input.loadOk then s.checkpoint else ""
    ensures Fetches(server, s, input, cursors[j]) <==> start <= j < start + Reach(input.d, 0, |cursors| - start)
    ensures var other := input.(d := input.d.(refused := refused));
            && Fetches(server, s, other, cursors[j]) == Fetches(server, s, input, cursors[j])
            && AfterRun(server, s, other) == AfterRun(server, s, input)
  {
    FetchesIff(server, cursors, s, input, start, j);
    RefusalsAreOnlyCounted(server, input.d, refused, cursors[start], 0, 0, s.checkpoint, s.handed, 0, 0, 0);
  }
}
