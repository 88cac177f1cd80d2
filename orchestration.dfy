/** The download-and-convert loop that runs once the checks pass: every
    (ticker, form) pair in ticker-major order, a step counter for the progress
    bar, one output file per pair that the pair's HTML documents overwrite in
    turn, a results log, and per-pair exceptions that are reported and skipped.

    The download client and the directory walk are a `Fetcher`: given the step
    number and the pair, the HTML documents the pair's body converts, in the
    order the walk yields them, and the exception that ended the body, if any.
    HTML-to-text extraction is an uninterpreted `Converter`. */
module Orchestration {

  datatype Option<T> = None | Some(value: T)

  /** The text of one HTML document. */
  type Html = string

  datatype Pair = Pair(ticker: string, form: string)

  /** What one pair's body sees. An exception raised by the download itself
      comes with no documents; one raised while reading or converting document
      k + 1 comes with the k documents converted before it. */
  datatype Fetched = Fetched(docs: seq<Html>, raised: Option<string>)

  /** The outcome of the request made at a given (1-based) step for a pair. */
  type Fetcher = (nat, Pair) -> Fetched

  type Converter = Html -> string

  /** The lines shown to the user. `Progress` stands for the progress bar set
      to `step / total`; only the numerator and denominator are kept. */
  datatype Message =
    | Progress(step: nat, total: nat)
    | Fetching(ticker: string, form: string)
    | Converted(name: string)
    | NoData(ticker: string, form: string)
    | Failed(ticker: string, form: string, error: string)

  /** Everything the loop changes: `step_count`, the download requests made,
      the output directory (file name to text), `results_log`, and the log. */
  datatype Run = Run(
    step: nat,
    requests: seq<Pair>,
    outputs: map<string, string>,
    results: seq<string>,
    log: seq<Message>)

  /** The state when the loop starts: the output directory has just been
      emptied and nothing has been requested or logged. */
  const Start := Run(0, [], map[], [], [])

  /** The file a pair's documents are written to: `TICKER_FORM.txt`. */
  function OutputName(ticker: string, form: string): string {
    ticker + "_" + form + ".txt"
  }

  /** One ticker against every form, in the order of the form list. */
  function Row(ticker: string, forms: seq<string>): seq<Pair> {
    seq(|forms|, j requires 0 <= j < |forms| => Pair(ticker, forms[j]))
  }

  /** The nested `for ticker` / `for form` enumeration. */
  function Pairs(tickers: seq<string>, forms: seq<string>): seq<Pair>
    decreases |tickers|
  {
    if tickers == [] then [] else Row(tickers[0], forms) + Pairs(tickers[1..], forms)
  }

  /** The same `n` copies of `x`. */
  function Repeat<T>(x: T, n: nat): (s: seq<T>)
    ensures |s| == n && forall i :: 0 <= i < n ==> s[i] == x
  {
    seq(n, _ => x)
  }

  /** The output directory after a pair's documents were written to `name`
      one after the other: untouched if there were none, otherwise the file
      holds the text of the last one. */
  function Written(outputs: map<string, string>, name: string, docs: seq<Html>, toText: Converter): map<string, string> {
    if docs == [] then outputs else outputs[name := toText(docs[|docs| - 1])]
  }

  /** What ends a pair's log: the error, the "no data" warning, or nothing. */
  function Closing(p: Pair, got: Fetched): seq<Message> {
    match got.raised
    case Some(e) => [Failed(p.ticker, p.form, e)]
    case None => if got.docs == [] then [NoData(p.ticker, p.form)] else []
  }

  /** The lines one pair adds to the log. */
  function PairLog(step: nat, total: nat, p: Pair, got: Fetched): seq<Message> {
    [Progress(step, total), Fetching(p.ticker, p.form)]
    + Repeat(Converted(OutputName(p.ticker, p.form)), |got.docs|)
    + Closing(p, got)
  }

  /** One iteration of the inner loop body, as its net effect. */
  function ProcessPair(r: Run, p: Pair, total: nat, fetch: Fetcher, toText: Converter): Run {
    var step := r.step + 1;
    var got := fetch(step, p);
    var name := OutputName(p.ticker, p.form);
    Run(step, r.requests + [p], Written(r.outputs, name, got.docs, toText),
        r.results + Repeat(name, |got.docs|), r.log + PairLog(step, total, p, got))
  }

  /** Processing the pairs `ps` in order from the start state. */
  function RunPairs(ps: seq<Pair>, total: nat, fetch: Fetcher, toText: Converter): Run
    decreases |ps|
  {
    if ps == [] then Start
    else ProcessPair(RunPairs(ps[..|ps| - 1], total, fetch, toText), ps[|ps| - 1], total, fetch, toText)
  }

  /** The whole loop: all pairs, with `total_steps = len(tickers) * len(forms)`. */
  function RunAll(tickers: seq<string>, forms: seq<string>, fetch: Fetcher, toText: Converter): Run {
    RunPairs(Pairs(tickers, forms), |tickers| * |forms|, fetch, toText)
  }

  /** The body of the `for form` loop for one pair (lines 64-103): count the
      step, update the progress bar, request the filing, write every HTML
      document found to the pair's file, and close with an error or a "no
      data" warning. `r.step < total` keeps the progress division defined. */
  method VisitPair(r: Run, p: Pair, total: nat, fetch: Fetcher, toText: Converter) returns (r': Run)
    requires r.step < total
    ensures r' == ProcessPair(r, p, total, fetch, toText)
  {
    var stepCount := r.step + 1;
    // `progress = step_count / total_steps` divides by a positive count.
    assert 0 < stepCount <= total;
    var log := r.log + [Progress(stepCount, total), Fetching(p.ticker, p.form)];
    var requests := r.requests + [p];
    var got := fetch(stepCount, p);
    var name := OutputName(p.ticker, p.form);
    var outputs, resultsLog := r.outputs, r.results;
    var fileFound := false;
    var k := 0;
    while k < |got.docs|
      invariant 0 <= k <= |got.docs|
      invariant fileFound <==> k > 0
      invariant outputs == Written(r.outputs, name, got.docs[..k], toText)
      invariant resultsLog == r.results + Repeat(name, k)
      invariant log == r.log + [Progress(stepCount, total), Fetching(p.ticker, p.form)]
                       + Repeat(Converted(name), k)
    {
      outputs := outputs[name := toText(got.docs[k])];
      log := log + [Converted(name)];
      resultsLog := resultsLog + [name];
      fileFound := true;
      k := k + 1;
      assert got.docs[..k][k - 1] == got.docs[k - 1];
      assert Repeat(name, k - 1) + [name] == Repeat(name, k);
      assert Repeat(Converted(name), k - 1) + [Converted(name)] == Repeat(Converted(name), k);
    }
    assert got.docs[..k] == got.docs;
    match got.raised {
      case Some(e) =>
        log := log + [Failed(p.ticker, p.form, e)];
      case None =>
        if !fileFound {
          log := log + [NoData(p.ticker, p.form)];
        }
    }
    r' := Run(stepCount, requests, outputs, resultsLog, log);
  }

  /** The loop of lines 55-103: every pair, ticker-major and form-minor. */
  method DownloadAll(tickers: seq<string>, forms: seq<string>, fetch: Fetcher, toText: Converter)
    returns (run: Run)
    ensures run == RunAll(tickers, forms, fetch, toText)
  {
    var totalSteps := |tickers| * |forms|;
    PairsLength(tickers, forms);
    run := Start;
    var i := 0;
    while i < |tickers|
      invariant 0 <= i <= |tickers|
      invariant run == RunPairs(Pairs(tickers[..i], forms), totalSteps, fetch, toText)
    {
      var ticker := tickers[i];
      ghost var done := Pairs(tickers[..i], forms);
      ghost var row := Row(ticker, forms);
      PairsPrefix(tickers, i, forms);
      assert done + row[..0] == done;
      var j := 0;
      while j < |forms|
        invariant 0 <= j <= |forms|
        invariant run == RunPairs(done + row[..j], totalSteps, fetch, toText)
      {
        var form := forms[j];
        RowStep(done, ticker, forms, j, totalSteps, fetch, toText);
        run := VisitPair(run, Pair(ticker, form), totalSteps, fetch, toText);
        j := j + 1;
      }
      assert row[..j] == row;
      i := i + 1;
    }
    assert tickers[..i] == tickers;
  }

  // ---------------------------------------------------------------------------
  // The enumeration

  /** Enumerating a concatenation of ticker lists enumerates each in turn. */
  lemma {:induction false} PairsAppend(a: seq<string>, b: seq<string>, forms: seq<string>)
    ensures Pairs(a + b, forms) == Pairs(a, forms) + Pairs(b, forms)
    decreases |a|
  {
    if a == [] {
      assert a + b == b;
    } else {
      assert (a + b)[0] == a[0];
      assert (a + b)[1..] == a[1..] + b;
      PairsAppend(a[1..], b, forms);
    }
  }

  /** The loop visits `len(tickers) * len(forms)` pairs. */
  lemma {:induction false} PairsLength(tickers: seq<string>, forms: seq<string>)
    ensures |Pairs(tickers, forms)| == |tickers| * |forms|
    decreases |tickers|
  {
    if tickers != [] {
      PairsLength(tickers[1..], forms);
      assert |tickers| * |forms| == |forms| + (|tickers| - 1) * |forms|;
    }
  }

  /** The pairs of the first `i` tickers, then the row of ticker `i`, are a
      prefix of all the pairs. */
  lemma PairsPrefix(tickers: seq<string>, i: nat, forms: seq<string>)
    requires i < |tickers|
    ensures Pairs(tickers[..i + 1], forms) == Pairs(tickers[..i], forms) + Row(tickers[i], forms)
    ensures |Pairs(tickers[..i], forms)| + |forms| <= |Pairs(tickers, forms)|
  {
    assert tickers[..i + 1] == tickers[..i] + [tickers[i]];
    PairsAppend(tickers[..i], [tickers[i]], forms);
    assert Pairs([tickers[i]], forms) == Row(tickers[i], forms) + Pairs([], forms);
    assert tickers == tickers[..i + 1] + tickers[i + 1..];
    PairsAppend(tickers[..i + 1], tickers[i + 1..], forms);
  }

  /** Every pair combines one of the tickers with one of the forms. */
  lemma {:induction false} PairsTickers(tickers: seq<string>, forms: seq<string>)
    ensures forall q :: q in Pairs(tickers, forms) ==> q.ticker in tickers && q.form in forms
    decreases |tickers|
  {
    if tickers != [] {
      PairsTickers(tickers[1..], forms);
      var row := Row(tickers[0], forms);
      forall q | q in Pairs(tickers, forms)
        ensures q.ticker in tickers && q.form in forms
      {
        if q in row {
          var j :| 0 <= j < |row| && row[j] == q;
        } else {
          assert q.ticker in tickers[1..];
        }
      }
    }
  }

  /** The first `j + 1` pairs of a row extend its first `j` by form `j`. */
  lemma RowPrefix(ticker: string, forms: seq<string>, j: nat)
    requires j < |forms|
    ensures Row(ticker, forms)[..j + 1] == Row(ticker, forms)[..j] + [Pair(ticker, forms[j])]
  {
    var row := Row(ticker, forms);
    forall q | 0 <= q <= j
      ensures row[..j + 1][q] == (row[..j] + [Pair(ticker, forms[j])])[q]
    {
    }
  }

  /** Visiting form `j` of a row, after the pairs `done` and the first `j`
      forms of the row, is one more step of the loop. */
  lemma RowStep(done: seq<Pair>, ticker: string, forms: seq<string>, j: nat,
                total: nat, fetch: Fetcher, toText: Converter)
    requires j < |forms|
    ensures RunPairs(done + Row(ticker, forms)[..j], total, fetch, toText).step == |done| + j
    ensures RunPairs(done + Row(ticker, forms)[..j + 1], total, fetch, toText)
            == ProcessPair(RunPairs(done + Row(ticker, forms)[..j], total, fetch, toText),
                           Pair(ticker, forms[j]), total, fetch, toText)
  {
    var before := done + Row(ticker, forms)[..j];
    RunPairsShape(before, total, fetch, toText);
    RowPrefix(ticker, forms, j);
    assert done + Row(ticker, forms)[..j + 1] == before + [Pair(ticker, forms[j])];
    RunPairsSnoc(before, Pair(ticker, forms[j]), total, fetch, toText);
  }

  /** Ticker-major, form-minor order: pair number `i * len(forms) + j` is
      ticker `i` with form `j`. */
  lemma {:induction false} PairsAt(tickers: seq<string>, forms: seq<string>, i: nat, j: nat)
    requires i < |tickers| && j < |forms|
    ensures i * |forms| + j < |Pairs(tickers, forms)|
    ensures Pairs(tickers, forms)[i * |forms| + j] == Pair(tickers[i], forms[j])
    decreases i
  {
    PairsLength(tickers, forms);
    var n := |forms|;
    var row := Row(tickers[0], forms);
    assert Pairs(tickers, forms) == row + Pairs(tickers[1..], forms);
    if i == 0 {
      assert row[j] == Pair(tickers[0], forms[j]);
    } else {
      PairsAt(tickers[1..], forms, i - 1, j);
      assert i * n + j == n + ((i - 1) * n + j);
    }
  }

  // ---------------------------------------------------------------------------
  // Counting and requests

  /** After processing `ps` the step counter is `|ps|` and exactly the pairs of
      `ps` have been requested, in order, whatever the downloads did. */
  lemma {:induction false} RunPairsShape(ps: seq<Pair>, total: nat, fetch: Fetcher, toText: Converter)
    ensures RunPairs(ps, total, fetch, toText).step == |ps|
    ensures RunPairs(ps, total, fetch, toText).requests == ps
    decreases |ps|
  {
    if ps != [] {
      var init := ps[..|ps| - 1];
      RunPairsShape(init, total, fetch, toText);
      assert init + [ps[|ps| - 1]] == ps;
    }
  }

  /** Processing one more pair extends the run by that pair's body. */
  lemma RunPairsSnoc(ps: seq<Pair>, p: Pair, total: nat, fetch: Fetcher, toText: Converter)
    ensures RunPairs(ps + [p], total, fetch, toText)
            == ProcessPair(RunPairs(ps, total, fetch, toText), p, total, fetch, toText)
  {
    assert (ps + [p])[..|ps|] == ps;
  }

  /** The loop requests every pair, ticker-major and form-minor, even when
      downloads raise, and `step_count` ends equal to `total_steps`. */
  lemma RunAllVisitsEveryPair(tickers: seq<string>, forms: seq<string>, fetch: Fetcher, toText: Converter)
    ensures RunAll(tickers, forms, fetch, toText).requests == Pairs(tickers, forms)
    ensures RunAll(tickers, forms, fetch, toText).step == |tickers| * |forms|
  {
    PairsLength(tickers, forms);
    RunPairsShape(Pairs(tickers, forms), |tickers| * |forms|, fetch, toText);
  }

  /** With no form selected the inner body never runs: nothing is requested,
      written or logged. */
  lemma {:induction false} NoFormsNoWork(tickers: seq<string>, fetch: Fetcher, toText: Converter)
    ensures RunAll(tickers, [], fetch, toText) == Start
    decreases |tickers|
  {
    if tickers != [] {
      NoFormsNoWork(tickers[1..], fetch, toText);
      assert Row(tickers[0], []) == [];
      assert Pairs(tickers, []) == Pairs(tickers[1..], []);
    }
  }

  // ---------------------------------------------------------------------------
  // The log

  /** The outcome seen by the `k`-th pair of `ps` (its step is `k + 1`). */
  function Outcome(ps: seq<Pair>, k: nat, fetch: Fetcher): Fetched
    requires k < |ps|
  {
    fetch(k + 1, ps[k])
  }

  /** The last pair of `ps` adds its own lines after those of the others. */
  lemma RunPairsLog(ps: seq<Pair>, total: nat, fetch: Fetcher, toText: Converter)
    requires ps != []
    ensures RunPairs(ps, total, fetch, toText).log
            == RunPairs(ps[..|ps| - 1], total, fetch, toText).log
               + PairLog(|ps|, total, ps[|ps| - 1], Outcome(ps, |ps| - 1, fetch))
  {
    RunPairsShape(ps[..|ps| - 1], total, fetch, toText);
  }

  /** Every progress update shows `step / total` with `1 <= step <= total`,
      so the division is never by zero. */
  lemma {:induction false} ProgressBounded(ps: seq<Pair>, total: nat, fetch: Fetcher, toText: Converter)
    requires |ps| <= total
    ensures forall m :: m in RunPairs(ps, total, fetch, toText).log && m.Progress?
                        ==> m.total == total && 1 <= m.step <= |ps|
    decreases |ps|
  {
    if ps != [] {
      var init := ps[..|ps| - 1];
      ProgressBounded(init, total, fetch, toText);
      RunPairsLog(ps, total, fetch, toText);
      var got := Outcome(ps, |ps| - 1, fetch);
      var p := ps[|ps| - 1];
      var extra := PairLog(|ps|, total, p, got);
      forall m | m in extra && m.Progress?
        ensures m.total == total && 1 <= m.step <= |ps|
      {
        var q :| 0 <= q < |extra| && extra[q] == m;
        assert q == 0;
      }
    }
  }

  /** The progress bound for the whole loop. */
  lemma RunAllProgressBounded(tickers: seq<string>, forms: seq<string>, fetch: Fetcher, toText: Converter)
    ensures forall m :: m in RunAll(tickers, forms, fetch, toText).log && m.Progress?
                        ==> m.total == |tickers| * |forms| && 1 <= m.step <= m.total
  {
    PairsLength(tickers, forms);
    ProgressBounded(Pairs(tickers, forms), |tickers| * |forms|, fetch, toText);
  }

  /** Pair `k` of `ps` is `p`, and its body neither converted a document nor
      raised. */
  predicate Empty(ps: seq<Pair>, k: int, p: Pair, fetch: Fetcher) {
    0 <= k < |ps| && ps[k] == p && Outcome(ps, k, fetch).docs == [] && Outcome(ps, k, fetch).raised == None
  }

  /** Pair `k` of `ps` is `p`, and its body raised `e`. */
  predicate RaisedAt(ps: seq<Pair>, k: int, p: Pair, e: string, fetch: Fetcher) {
    0 <= k < |ps| && ps[k] == p && Outcome(ps, k, fetch).raised == Some(e)
  }

  /** Of the lines a pair adds, only the closing one can be a warning or an
      error. */
  lemma PairLogClosing(step: nat, total: nat, p: Pair, got: Fetched, m: Message)
    requires m.NoData? || m.Failed?
    ensures m in PairLog(step, total, p, got) <==> m in Closing(p, got)
  {
    var head := [Progress(step, total), Fetching(p.ticker, p.form)]
                + Repeat(Converted(OutputName(p.ticker, p.form)), |got.docs|);
    assert PairLog(step, total, p, got) == head + Closing(p, got);
    forall q | 0 <= q < |head| ensures head[q] != m {
    }
  }

  /** A pair of `ps` is empty at some visit exactly when it is so at a visit
      before the last one, or at the last one. */
  lemma EmptySplit(ps: seq<Pair>, init: seq<Pair>, p: Pair, fetch: Fetcher)
    requires ps != [] && init == ps[..|ps| - 1]
    ensures (exists k :: Empty(ps, k, p, fetch))
            <==> (exists k :: Empty(init, k, p, fetch)) || Empty(ps, |ps| - 1, p, fetch)
  {
    if exists k :: Empty(ps, k, p, fetch) {
      var k :| Empty(ps, k, p, fetch);
      if k < |init| {
        assert Empty(init, k, p, fetch);
      }
    }
    if exists k :: Empty(init, k, p, fetch) {
      var k :| Empty(init, k, p, fetch);
      assert Empty(ps, k, p, fetch);
    }
  }

  /** The same split for the visits that raised `e`. */
  lemma RaisedSplit(ps: seq<Pair>, init: seq<Pair>, p: Pair, e: string, fetch: Fetcher)
    requires ps != [] && init == ps[..|ps| - 1]
    ensures (exists k :: RaisedAt(ps, k, p, e, fetch))
            <==> (exists k :: RaisedAt(init, k, p, e, fetch)) || RaisedAt(ps, |ps| - 1, p, e, fetch)
  {
    if exists k :: RaisedAt(ps, k, p, e, fetch) {
      var k :| RaisedAt(ps, k, p, e, fetch);
      if k < |init| {
        assert RaisedAt(init, k, p, e, fetch);
      }
    }
    if exists k :: RaisedAt(init, k, p, e, fetch) {
      var k :| RaisedAt(init, k, p, e, fetch);
      assert RaisedAt(ps, k, p, e, fetch);
    }
  }

  /** The "no data" warning for a pair appears exactly when some visit of that
      pair converted nothing and raised nothing, and the loop goes on after it. */
  lemma {:induction false} NoDataWarnings(ps: seq<Pair>, total: nat, fetch: Fetcher, toText: Converter,
                                          t: string, f: string)
    ensures NoData(t, f) in RunPairs(ps, total, fetch, toText).log
            <==> exists k :: Empty(ps, k, Pair(t, f), fetch)
    decreases |ps|
  {
    if ps != [] {
      var n := |ps| - 1;
      NoDataWarnings(ps[..n], total, fetch, toText, t, f);
      RunPairsLog(ps, total, fetch, toText);
      PairLogClosing(|ps|, total, ps[n], Outcome(ps, n, fetch), NoData(t, f));
      EmptySplit(ps, ps[..n], Pair(t, f), fetch);
    }
  }

  /** An error is reported for a pair exactly at the visits whose body raised
      it, and the loop goes on after it. */
  lemma {:induction false} FailuresReported(ps: seq<Pair>, total: nat, fetch: Fetcher, toText: Converter,
                                            t: string, f: string, e: string)
    ensures Failed(t, f, e) in RunPairs(ps, total, fetch, toText).log
            <==> exists k :: RaisedAt(ps, k, Pair(t, f), e, fetch)
    decreases |ps|
  {
    if ps != [] {
      var n := |ps| - 1;
      FailuresReported(ps[..n], total, fetch, toText, t, f, e);
      RunPairsLog(ps, total, fetch, toText);
      PairLogClosing(|ps|, total, ps[n], Outcome(ps, n, fetch), Failed(t, f, e));
      RaisedSplit(ps, ps[..n], Pair(t, f), e, fetch);
    }
  }

  // ---------------------------------------------------------------------------
  // The output directory and the results log

  /** Pair `k` of `ps` writes to `name`: its file name is `name` and its body
      converted at least one document. */
  predicate Writes(ps: seq<Pair>, k: int, name: string, fetch: Fetcher) {
    0 <= k < |ps| && OutputName(ps[k].ticker, ps[k].form) == name && Outcome(ps, k, fetch).docs != []
  }

  /** The last document converted by pair `k`. */
  function LastDoc(ps: seq<Pair>, k: int, fetch: Fetcher): Html
    requires 0 <= k < |ps| && Outcome(ps, k, fetch).docs != []
  {
    var docs := Outcome(ps, k, fetch).docs;
    docs[|docs| - 1]
  }

  /** The output directory after `ps` is the one after all but the last pair,
      with the last pair's documents written to its file. */
  lemma RunPairsOutputs(ps: seq<Pair>, total: nat, fetch: Fetcher, toText: Converter)
    requires ps != []
    ensures RunPairs(ps, total, fetch, toText).outputs
            == Written(RunPairs(ps[..|ps| - 1], total, fetch, toText).outputs,
                       OutputName(ps[|ps| - 1].ticker, ps[|ps| - 1].form),
                       Outcome(ps, |ps| - 1, fetch).docs, toText)
  {
    RunPairsShape(ps[..|ps| - 1], total, fetch, toText);
  }

  /** Dropping the last pair changes neither which earlier pairs write to a
      name nor what they write. */
  lemma WritesPrefix(ps: seq<Pair>, name: string, fetch: Fetcher)
    requires ps != []
    ensures forall k :: 0 <= k < |ps| - 1 ==>
              (Writes(ps, k, name, fetch) <==> Writes(ps[..|ps| - 1], k, name, fetch))
    ensures forall k :: 0 <= k < |ps| - 1 && Writes(ps, k, name, fetch) ==>
              LastDoc(ps, k, fetch) == LastDoc(ps[..|ps| - 1], k, fetch)
  {
    var init := ps[..|ps| - 1];
    forall k | 0 <= k < |init|
      ensures init[k] == ps[k] && Outcome(init, k, fetch) == Outcome(ps, k, fetch)
    {
    }
  }

  /** The output directory holds a file for a name exactly when some pair
      with that file name converted a document. */
  lemma {:induction false} FileWritten(ps: seq<Pair>, total: nat, fetch: Fetcher, toText: Converter, name: string)
    ensures name in RunPairs(ps, total, fetch, toText).outputs <==> exists k :: Writes(ps, k, name, fetch)
    decreases |ps|
  {
    if ps != [] {
      var n := |ps| - 1;
      var init := ps[..n];
      FileWritten(init, total, fetch, toText, name);
      RunPairsOutputs(ps, total, fetch, toText);
      WritesPrefix(ps, name, fetch);
      if exists k :: Writes(ps, k, name, fetch) {
        var k :| Writes(ps, k, name, fetch);
        if k < n {
          assert Writes(init, k, name, fetch);
        }
      }
      if exists k :: Writes(init, k, name, fetch) {
        var k :| Writes(init, k, name, fetch);
        assert Writes(ps, k, name, fetch);
      }
      if name !in RunPairs(init, total, fetch, toText).outputs && name in RunPairs(ps, total, fetch, toText).outputs {
        assert Writes(ps, n, name, fetch);
      }
    }
  }

  /** A file holds the text of the last document of the last pair that wrote
      to it: later writes overwrite earlier ones, duplicate tickers included. */
  lemma {:induction false} LastWriteWins(ps: seq<Pair>, total: nat, fetch: Fetcher, toText: Converter,
                                         name: string, k: nat)
    requires Writes(ps, k, name, fetch)
    requires forall k' :: k < k' < |ps| ==> !Writes(ps, k', name, fetch)
    ensures name in RunPairs(ps, total, fetch, toText).outputs
    ensures RunPairs(ps, total, fetch, toText).outputs[name] == toText(LastDoc(ps, k, fetch))
    decreases |ps|
  {
    var n := |ps| - 1;
    var init := ps[..n];
    RunPairsOutputs(ps, total, fetch, toText);
    WritesPrefix(ps, name, fetch);
    if k < n {
      assert !Writes(ps, n, name, fetch);
      assert Writes(init, k, name, fetch);
      forall k' | k < k' < |init| ensures !Writes(init, k', name, fetch) {
        assert !Writes(ps, k', name, fetch);
      }
      LastWriteWins(init, total, fetch, toText, name, k);
    }
  }

  /** The number of documents converted over all pairs of `ps`. */
  function DocCount(ps: seq<Pair>, fetch: Fetcher): nat
    decreases |ps|
  {
    if ps == [] then 0 else DocCount(ps[..|ps| - 1], fetch) + |Outcome(ps, |ps| - 1, fetch).docs|
  }

  /** `results_log` after `ps` is the one after all but the last pair, then
      the last pair's file name once per converted document. */
  lemma RunPairsResults(ps: seq<Pair>, total: nat, fetch: Fetcher, toText: Converter)
    requires ps != []
    ensures RunPairs(ps, total, fetch, toText).results
            == RunPairs(ps[..|ps| - 1], total, fetch, toText).results
               + Repeat(OutputName(ps[|ps| - 1].ticker, ps[|ps| - 1].form), |Outcome(ps, |ps| - 1, fetch).docs|)
  {
    RunPairsShape(ps[..|ps| - 1], total, fetch, toText);
  }

  /** `results_log` gets one entry per converted document, not one per pair. */
  lemma {:induction false} ResultsCount(ps: seq<Pair>, total: nat, fetch: Fetcher, toText: Converter)
    ensures |RunPairs(ps, total, fetch, toText).results| == DocCount(ps, fetch)
    decreases |ps|
  {
    if ps != [] {
      ResultsCount(ps[..|ps| - 1], total, fetch, toText);
      RunPairsResults(ps, total, fetch, toText);
    }
  }

  /** `results_log` names exactly the files in the output directory. */
  lemma {:induction false} ResultsNameOutputs(ps: seq<Pair>, total: nat, fetch: Fetcher, toText: Converter)
    ensures forall name :: name in RunPairs(ps, total, fetch, toText).results
                           <==> name in RunPairs(ps, total, fetch, toText).outputs
    decreases |ps|
  {
    if ps != [] {
      var n := |ps| - 1;
      ResultsNameOutputs(ps[..n], total, fetch, toText);
      RunPairsResults(ps, total, fetch, toText);
      RunPairsOutputs(ps, total, fetch, toText);
      var docs := Outcome(ps, n, fetch).docs;
      var added := Repeat(OutputName(ps[n].ticker, ps[n].form), |docs|);
      forall name | name in added
        ensures name == OutputName(ps[n].ticker, ps[n].form)
      {
        var q :| 0 <= q < |added| && added[q] == name;
      }
      if docs != [] {
        assert added[0] == OutputName(ps[n].ticker, ps[n].form);
      }
    }
  }

  // ---------------------------------------------------------------------------
  // File names

  /** The forms the form selector offers. */
  predicate SelectableForm(form: string) {
    form == "10-K" || form == "10-Q" || form == "8-K"
  }

  /** In `ticker + "_" + form` with an underscore-free form, the separator
      is the last underscore. */
  lemma LastUnderscore(t: string, f: string)
    requires '_' !in f
    ensures (t + "_" + f)[|t|] == '_'
    ensures forall i :: |t| < i < |t + "_" + f| ==> (t + "_" + f)[i] != '_'
  {
    var x := t + "_" + f;
    forall i | |t| < i < |x| ensures x[i] != '_' {
      assert x[i] == f[i - |t| - 1];
    }
  }

  /** File names of pairs whose forms contain no underscore never collide:
      two different pairs never write to the same file, so only a repeated
      (ticker, form) pair overwrites a file. */
  lemma OutputNameInjective(t1: string, f1: string, t2: string, f2: string)
    requires '_' !in f1 && '_' !in f2
    requires OutputName(t1, f1) == OutputName(t2, f2)
    ensures t1 == t2 && f1 == f2
  {
    var x1 := t1 + "_" + f1;
    var x2 := t2 + "_" + f2;
    assert OutputName(t1, f1) == x1 + ".txt" && OutputName(t2, f2) == x2 + ".txt";
    assert x1 == OutputName(t1, f1)[..|x1|];
    assert x2 == OutputName(t2, f2)[..|x2|];
    assert x1 == x2;
    LastUnderscore(t1, f1);
    LastUnderscore(t2, f2);
    assert |t1| == |t2|;
    assert t1 == x1[..|t1|] && t2 == x2[..|t2|];
    assert f1 == x1[|t1| + 1..] && f2 == x2[|t2| + 1..];
  }

  /** None of the selectable forms contains an underscore. */
  lemma SelectableFormsHaveNoUnderscore(form: string)
    requires SelectableForm(form)
    ensures '_' !in form
  {
  }
}
