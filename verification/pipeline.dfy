/**
 * The driver `scrape_gr_data`: every row is enriched by its own task, the
 * results are collected in the order the tasks complete, the header line
 * gains two column names, and the results are written to the output file,
 * else to a backup file, else printed.
 */
module Pipeline {
  import opened Retry
  import opened Enrich

  const OutputCsv: string := "output.csv"
  const BackupCsv: string := "backup_output.csv"

  /** The names of the two columns enrichment appends. */
  const EnrichedColumns: seq<string> := ["rating", "num_ratings"]

  /**
   * How one row's task ended: it raised an exception of its own (outside the
   * modelled steps), or it ran against `web`, the outcomes of the GET attempts
   * on each URL.
   */
  datatype TaskOutcome = Raised | Ran(web: string -> seq<Attempt<Page>>)

  /**
   * What the `as_completed` loop appends for a row: the enriched row, or the
   * row with two Nones when the task raised. A row with a single field always
   * raises, since `title, author, *_ = row` cannot unpack it.
   */
  function TaskResult(row: seq<string>, t: TaskOutcome): (r: seq<Field>)
    requires |row| >= 1
    ensures |r| == |row| + 2
    ensures r[..|row|] == AsFields(row)
    ensures t.Raised? || |row| < 2 ==> r[|row|..] == [Null, Null]
    ensures t.Ran? && |row| >= 2 ==> r == ScrapeBookData(row, t.web)
  {
    if t.Raised? || |row| < 2 then
      assert (AsFields(row) + [Null, Null])[..|row|] == AsFields(row);
      AsFields(row) + [Null, Null]
    else ScrapeBookData(row, t.web)
  }

  /** No row is empty: the exception handler reads `row[0]` of a row whose task raised. */
  predicate NoEmptyRow(rows: seq<seq<string>>) {
    forall i :: 0 <= i < |rows| ==> |rows[i]| >= 1
  }

  /** The indices `0 .. n-1` in ascending order. */
  function Range(n: nat): (r: seq<nat>)
    ensures |r| == n
    ensures forall i :: 0 <= i < n ==> r[i] == i
  {
    seq(n, i requires 0 <= i < n => i)
  }

  /** `order` lists every index `0 .. n-1` exactly once: the order in which the `n` tasks complete. */
  predicate IsPermutation(order: seq<nat>, n: nat) {
    multiset(order) == multiset(Range(n))
  }

  /** A completion order names only existing rows. */
  lemma PermutationInRange(order: seq<nat>, n: nat)
    requires IsPermutation(order, n)
    ensures |order| == n
    ensures forall k :: 0 <= k < |order| ==> order[k] < n
  {
    assert |order| == |multiset(order)| == |multiset(Range(n))| == n;
    forall k | 0 <= k < |order| ensures order[k] < n {
      assert order[k] in multiset(Range(n));
    }
  }

  /** The elements of `xs` at the indices `idx`, in that order. */
  function Pick<T>(xs: seq<T>, idx: seq<nat>): (r: seq<T>)
    requires forall k :: 0 <= k < |idx| ==> idx[k] < |xs|
    ensures |r| == |idx|
    ensures forall k :: 0 <= k < |idx| ==> r[k] == xs[idx[k]]
  {
    seq(|idx|, k requires 0 <= k < |idx| => xs[idx[k]])
  }

  /** Picking by a concatenation of index lists concatenates the picks. */
  lemma PickAppend<T>(xs: seq<T>, u: seq<nat>, w: seq<nat>)
    requires forall k :: 0 <= k < |u| ==> u[k] < |xs|
    requires forall k :: 0 <= k < |w| ==> w[k] < |xs|
    ensures forall k :: 0 <= k < |u + w| ==> (u + w)[k] < |xs|
    ensures Pick(xs, u + w) == Pick(xs, u) + Pick(xs, w)
  {
    assert forall k :: 0 <= k < |u + w| ==> (u + w)[k] == if k < |u| then u[k] else w[k - |u|];
  }

  /** `s` without its element at `p`. */
  function Without<T>(s: seq<T>, p: nat): (r: seq<T>)
    requires p < |s|
    ensures |r| == |s| - 1
    ensures multiset(r) + multiset([s[p]]) == multiset(s)
  {
    assert s == s[..p] + [s[p]] + s[p + 1..];
    s[..p] + s[p + 1..]
  }

  /** Removing matching elements from two rearrangements of each other leaves rearrangements of each other. */
  lemma RemoveMatching(a: seq<nat>, q: nat, b: seq<nat>, p: nat)
    requires multiset(a) == multiset(b)
    requires q < |a| && p < |b| && b[p] == a[q]
    ensures multiset(Without(a, q)) == multiset(Without(b, p))
  {
    var m1, m2, one := multiset(Without(a, q)), multiset(Without(b, p)), multiset([a[q]]);
    assert m1 + one == m2 + one;
    forall e ensures m1[e] == m2[e] {
      assert (m1 + one)[e] == (m2 + one)[e];
    }
  }

  /** Picking with the index at `p` picks `xs[s[p]]` once more than picking without it. */
  lemma PickAround<T>(xs: seq<T>, s: seq<nat>, p: nat)
    requires forall k :: 0 <= k < |s| ==> s[k] < |xs|
    requires p < |s|
    ensures forall k :: 0 <= k < |Without(s, p)| ==> Without(s, p)[k] < |xs|
    ensures multiset(Pick(xs, s)) == multiset(Pick(xs, Without(s, p))) + multiset([xs[s[p]]])
  {
    var front, back := s[..p], s[p + 1..];
    assert s == front + [s[p]] + back;
    PickAppend(xs, front, back);
    PickAppend(xs, front, [s[p]]);
    PickAppend(xs, front + [s[p]], back);
    assert Pick(xs, [s[p]]) == [xs[s[p]]];
  }

  /** Picking by two index lists that are rearrangements of each other picks the same multiset. */
  lemma {:induction false} PickRearranged<T>(xs: seq<T>, a: seq<nat>, b: seq<nat>)
    requires forall k :: 0 <= k < |b| ==> b[k] < |xs|
    requires multiset(a) == multiset(b)
    ensures forall k :: 0 <= k < |a| ==> a[k] < |xs|
    ensures multiset(Pick(xs, a)) == multiset(Pick(xs, b))
    decreases |a|
  {
    forall k | 0 <= k < |a| ensures a[k] < |xs| {
      assert a[k] in multiset(b);
    }
    if |a| > 0 {
      assert a[0] in multiset(b);
      var p :| 0 <= p < |b| && b[p] == a[0];
      RemoveMatching(a, 0, b, p);
      PickRearranged(xs, Without(a, 0), Without(b, p));
      PickAround(xs, a, 0);
      PickAround(xs, b, p);
    }
  }

  /** Taking the elements of `xs` in a completion order rearranges `xs`: the same elements, each as often. */
  lemma PermutedMultiset<T>(xs: seq<T>, order: seq<nat>)
    requires IsPermutation(order, |xs|)
    ensures forall k :: 0 <= k < |order| ==> order[k] < |xs|
    ensures multiset(Pick(xs, order)) == multiset(xs)
  {
    PickRearranged(xs, order, Range(|xs|));
    assert Pick(xs, Range(|xs|)) == xs;
  }

  /** The result of every row's own task, in input order. */
  function RowResults(rows: seq<seq<string>>, tasks: seq<TaskOutcome>): (rs: seq<seq<Field>>)
    requires NoEmptyRow(rows) && |tasks| == |rows|
    ensures |rs| == |rows|
    ensures forall i :: 0 <= i < |rows| ==> rs[i] == TaskResult(rows[i], tasks[i])
  {
    seq(|rows|, i requires 0 <= i < |rows| && NoEmptyRow(rows) && |tasks| == |rows| => TaskResult(rows[i], tasks[i]))
  }

  /** Where the results were written: one of the two files, or the console. */
  datatype Emit = WriteCsv(path: string, headers: seq<string>, rows: seq<seq<Field>>) | PrintRows(rows: seq<seq<Field>>)

  /**
   * The output attempts in order, given whether the primary and the backup
   * write succeed: the primary file first; the backup file only after the
   * primary failed; the console only after both failed. Every attempt carries
   * the same header line and rows.
   */
  function WriteChain(headers: seq<string>, results: seq<seq<Field>>, primaryOk: bool, backupOk: bool): (es: seq<Emit>)
    ensures 1 <= |es| <= 3
    ensures es[0] == WriteCsv(OutputCsv, headers, results)
    ensures |es| == 1 <==> primaryOk
    ensures |es| >= 2 ==> es[1] == WriteCsv(BackupCsv, headers, results)
    ensures |es| == 2 <==> !primaryOk && backupOk
    ensures |es| == 3 <==> !primaryOk && !backupOk
    ensures |es| == 3 ==> es[2] == PrintRows(results)
  {
    var primary := WriteCsv(OutputCsv, headers, results);
    if primaryOk then [primary]
    else
      var backup := WriteCsv(BackupCsv, headers, results);
      if backupOk then [primary, backup]
      else [primary, backup, PrintRows(results)]
  }

  /** The `for future in as_completed(...)` loop: appends each task's result as it completes. */
  method Collect<T>(all: seq<T>, order: seq<nat>) returns (results: seq<T>)
    requires forall k :: 0 <= k < |order| ==> order[k] < |all|
    ensures results == Pick(all, order)
  {
    results := [];
    var k := 0;
    while k < |order|
      invariant k <= |order|
      invariant results == Pick(all, order[..k])
    {
      assert order[..k + 1] == order[..k] + [order[k]];
      PickAppend(all, order[..k], [order[k]]);
      results := results + [all[order[k]]];
      k := k + 1;
    }
    assert order[..k] == order;
  }

  /** The observable outcome of the driver: the extended header line, the collected results and the output attempts. */
  datatype GrRun = GrRun(headers: seq<string>, results: seq<seq<Field>>, emits: seq<Emit>)

  /**
   * `scrape_gr_data` on the input header line and rows, given each row's task
   * outcome, the completion order of the tasks and whether each file write
   * succeeds. The k-th result is the result of the k-th task to complete.
   */
  method ScrapeGrData(headers: seq<string>, rows: seq<seq<string>>, tasks: seq<TaskOutcome>,
                      order: seq<nat>, primaryOk: bool, backupOk: bool) returns (run: GrRun)
    requires NoEmptyRow(rows) && |tasks| == |rows|
    requires IsPermutation(order, |rows|)
    ensures run.headers == headers + EnrichedColumns
    ensures |run.results| == |order| == |rows|
    ensures forall k :: 0 <= k < |order| ==> order[k] < |rows| && run.results[k] == TaskResult(rows[order[k]], tasks[order[k]])
    ensures multiset(run.results) == multiset(RowResults(rows, tasks))
    ensures run.emits == WriteChain(run.headers, run.results, primaryOk, backupOk)
  {
    PermutationInRange(order, |rows|);
    var all := RowResults(rows, tasks);
    var results := Collect(all, order);
    PermutedMultiset(all, order);
    var extended := headers + EnrichedColumns;
    run := GrRun(extended, results, WriteChain(extended, results, primaryOk, backupOk));
  }

  /** A row keeps its text fields and gains exactly two cells, whatever its task did. */
  lemma ResultShape(row: seq<string>, t: TaskOutcome)
    requires |row| >= 1
    ensures TaskResult(row, t)[..|row|] == AsFields(row)
    ensures |TaskResult(row, t)| == |row| + 2
    ensures t.Ran? && |row| >= 2 && (forall j :: 0 <= j < MaxRetries ==> AttemptAt(t.web(BookUrl(row)), j).Failed?) ==>
              TaskResult(row, t)[|row|..] == [Null, Null]
  {
  }
}
