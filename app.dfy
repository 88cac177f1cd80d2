/** The start button's handler: parse the ticker text, check the email and
    the ticker list, and only then run the download-and-convert loop on an
    emptied output directory. */
module App {
  import Tickers
  import Guard
  import Orchestration

  /** What pressing the button leads to: an error message before anything is
      downloaded, or a finished run of the loop. */
  datatype StartOutcome =
    | Rejected(reason: Guard.Reason)
    | Finished(run: Orchestration.Run)

  /** Lines 37-103: the ticker list is built from the text area, the guard
      decides, and an accepted request runs every (ticker, form) pair. */
  method OnStart(email: string, userTickers: string, forms: seq<string>,
                 fetch: Orchestration.Fetcher, toText: Orchestration.Converter)
    returns (outcome: StartOutcome)
    ensures outcome.Rejected?
            <==> !Guard.AcceptableEmail(email) || Tickers.ParseTickers(userTickers) == []
    ensures outcome.Rejected? && !Guard.AcceptableEmail(email) ==> outcome.reason == Guard.InvalidEmail
    ensures outcome.Rejected? && Guard.AcceptableEmail(email) ==> outcome.reason == Guard.NoTickers
    ensures outcome.Finished? ==>
              && outcome.run == Orchestration.RunAll(Tickers.ParseTickers(userTickers), forms, fetch, toText)
              && outcome.run.requests == Orchestration.Pairs(Tickers.ParseTickers(userTickers), forms)
              && outcome.run.step == |Tickers.ParseTickers(userTickers)| * |forms|
  {
    var tickerList := Tickers.ParseTickers(userTickers);
    match Guard.Check(email, tickerList)
    case Reject(reason) =>
      outcome := Rejected(reason);
    case Proceed =>
      var run := Orchestration.DownloadAll(tickerList, forms, fetch, toText);
      Orchestration.RunAllVisitsEveryPair(tickerList, forms, fetch, toText);
      outcome := Finished(run);
  }

  /** A request that is not rejected sends every one of its requests with a
      well-formed ticker: stripped, upper-case and comma-free. */
  lemma RequestedTickersWellFormed(userTickers: string, forms: seq<string>,
                                   fetch: Orchestration.Fetcher, toText: Orchestration.Converter)
    ensures forall q :: q in Orchestration.RunAll(Tickers.ParseTickers(userTickers), forms, fetch, toText).requests
                        ==> Tickers.WellFormed(q.ticker)
  {
    var ts := Tickers.ParseTickers(userTickers);
    Orchestration.RunAllVisitsEveryPair(ts, forms, fetch, toText);
    Orchestration.PairsTickers(ts, forms);
  }
}
