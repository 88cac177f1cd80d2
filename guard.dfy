/** The check made when the start button is pressed, before anything is reset
    or downloaded: first the contact email, then the ticker list. */
module Guard {
  import opened Text

  /** The placeholder domain of the email field's default value. */
  const Placeholder: string := "domain.com"

  datatype Reason =
    | InvalidEmail   // empty, or still containing the placeholder domain
    | NoTickers      // the normalised ticker list is empty

  datatype Verdict = Reject(reason: Reason) | Proceed

  /** An email the script accepts: non-empty and without the placeholder
      domain anywhere in it. */
  predicate AcceptableEmail(email: string) {
    email != [] && !Contains(email, Placeholder)
  }

  /** The `if` / `elif` / `else` of the button handler. */
  function Check(email: string, tickers: seq<string>): (v: Verdict)
    ensures v == Proceed ==> email != [] && tickers != []
  {
    if !AcceptableEmail(email) then Reject(InvalidEmail)
    else if tickers == [] then Reject(NoTickers)
    else Proceed
  }

  /** The run proceeds exactly when the email is non-empty, the placeholder
      occurs at no position of it, and there is at least one ticker. */
  lemma CheckProceeds(email: string, tickers: seq<string>)
    ensures Check(email, tickers) == Proceed
        <==> email != [] && tickers != [] && forall i :: !OccursAt(email, Placeholder, i)
  {
    ContainsIff(email, Placeholder);
  }

  /** The email is checked first: a bad email is reported as such even when
      the ticker list is also empty. */
  lemma EmailCheckedFirst(email: string, tickers: seq<string>)
    requires email == [] || exists i :: OccursAt(email, Placeholder, i)
    ensures Check(email, tickers) == Reject(InvalidEmail)
  {
    ContainsIff(email, Placeholder);
  }

  /** The placeholder is rejected wherever it appears, for instance inside
      `x@mydomain.com`. */
  lemma PlaceholderAnywhereRejected(before: string, after: string, tickers: seq<string>)
    ensures Check(before + Placeholder + after, tickers) == Reject(InvalidEmail)
  {
    ContainsInfix(before, Placeholder, after);
  }

  /** With an acceptable email, the only other rejection is an empty list. */
  lemma NoTickersRejected(email: string, tickers: seq<string>)
    requires email != [] && forall i :: !OccursAt(email, Placeholder, i)
    ensures Check(email, tickers) == Reject(NoTickers) <==> tickers == []
  {
    ContainsIff(email, Placeholder);
  }
}
