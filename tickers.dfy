/** The ticker list built from the comma-separated text area:
    `[t.strip().upper() for t in user_tickers.split(",") if t.strip()]`. */
module Tickers {
  import opened Text

  /** What every entry of the ticker list looks like: non-empty, no whitespace
      at either end, no lower-case letter and no comma. */
  predicate WellFormed(t: string) {
    t != [] && Stripped(t) && NoLower(t) && ',' !in t
  }

  /** One segment of the comprehension: the stripped, upper-cased segment,
      or nothing when it strips to the empty string. */
  function Clean(segment: string): (tickers: seq<string>)
    ensures |tickers| <= 1
  {
    var t := Strip(segment);
    if t == [] then [] else [Upper(t)]
  }

  /** The comprehension over all segments, left to right. */
  function Normalise(segments: seq<string>): (tickers: seq<string>)
    ensures |tickers| <= |segments|
    decreases |segments|
  {
    if segments == [] then [] else Clean(segments[0]) + Normalise(segments[1..])
  }

  /** Stripping only removes characters, so it cannot introduce a comma. */
  lemma StripNoComma(s: string)
    requires ',' !in s
    ensures ',' !in Strip(s)
  {
    var t := Strip(s);
    StripSpec(s);
    var lo :| PaddedAt(s, t, lo);
    forall k | 0 <= k < |t| ensures t[k] != ',' {
      assert t[k] == s[lo + k];
    }
  }

  /** A comma-free segment cleans to well-formed tickers. */
  lemma CleanWellFormed(segment: string)
    requires ',' !in segment
    ensures forall t :: t in Clean(segment) ==> WellFormed(t)
  {
    var t := Strip(segment);
    if t != [] {
      StripNoComma(segment);
      StripSpec(segment);
      UpperSpec(t);
      var u := Upper(t);
      assert ',' !in u by {
        forall k | 0 <= k < |u| ensures u[k] != ',' {
          assert t[k] != ',';
        }
      }
      assert Stripped(u) by {
        assert !IsSpace(t[0]) && !IsSpace(t[|t| - 1]);
      }
      assert Clean(segment) == [u];
    }
  }

  /** Every ticker produced from comma-free segments is well-formed. */
  lemma {:induction false} NormaliseWellFormedOutput(segments: seq<string>)
    requires forall s :: s in segments ==> ',' !in s
    ensures forall t :: t in Normalise(segments) ==> WellFormed(t)
    decreases |segments|
  {
    if segments != [] {
      assert segments[0] in segments;
      assert forall s :: s in segments[1..] ==> s in segments;
      NormaliseWellFormedOutput(segments[1..]);
      CleanWellFormed(segments[0]);
    }
  }

  /** The ticker list of line 37: well-formed entries, at most one per
      comma-separated segment. */
  function ParseTickers(text: string): (tickers: seq<string>)
    ensures |tickers| <= Count(text, ',') + 1
    ensures forall t :: t in tickers ==> WellFormed(t)
  {
    NormaliseWellFormedOutput(Split(text, ','));
    Normalise(Split(text, ','))
  }

  /** Normalising is done segment by segment: the order of the surviving
      segments is kept and nothing is merged or removed across segments. */
  lemma {:induction false} NormaliseAppend(a: seq<string>, b: seq<string>)
    ensures Normalise(a + b) == Normalise(a) + Normalise(b)
    decreases |a|
  {
    if a == [] {
      assert a + b == b;
    } else {
      var c := Clean(a[0]);
      assert (a + b)[0] == a[0];
      assert (a + b)[1..] == a[1..] + b;
      NormaliseAppend(a[1..], b);
      calc {
        Normalise(a + b);
        c + Normalise(a[1..] + b);
        c + (Normalise(a[1..]) + Normalise(b));
        (c + Normalise(a[1..])) + Normalise(b);
      }
    }
  }

  /** The text before a comma and the text after it contribute their tickers
      independently and in that order, duplicates included. */
  lemma ParseTickersConcat(x: string, y: string)
    ensures ParseTickers(x + "," + y) == ParseTickers(x) + ParseTickers(y)
  {
    SplitAppend(x, y, ',');
    NormaliseAppend(Split(x, ','), Split(y, ','));
  }

  /** A single comma-free segment gives one ticker, its stripped upper-cased
      text, unless it is blank, in which case it gives none. */
  lemma ParseTickersSegment(seg: string)
    requires ',' !in seg
    ensures ParseTickers(seg) == if Strip(seg) == [] then [] else [Upper(Strip(seg))]
  {
    SplitNoSep(seg, ',');
    assert Split(seg, ',')[1..] == [];
  }

  /** A segment made only of whitespace contributes nothing. */
  lemma ParseTickersBlank(seg: string)
    requires forall i :: 0 <= i < |seg| ==> IsSpace(seg[i])
    ensures ParseTickers(seg) == []
  {
    assert ',' !in seg;
    StripAllSpace(seg);
    ParseTickersSegment(seg);
  }

  /** Well-formed tickers are left unchanged by normalisation. */
  lemma {:induction false} NormaliseWellFormed(ts: seq<string>)
    requires forall t :: t in ts ==> WellFormed(t)
    ensures Normalise(ts) == ts
    decreases |ts|
  {
    if ts != [] {
      var t := ts[0];
      assert t in ts;
      StripStripped(t);
      UpperNoLower(t);
      assert Clean(t) == [t];
      assert forall u :: u in ts[1..] ==> u in ts;
      NormaliseWellFormed(ts[1..]);
      assert Normalise(ts) == Clean(t) + Normalise(ts[1..]);
      assert Normalise(ts) == [t] + ts[1..];
      assert [t] + ts[1..] == ts;
    }
  }

  /** Writing the ticker list back as comma-separated text and parsing it
      again yields the same list: the normalisation is idempotent. */
  lemma ParseTickersIdempotent(text: string)
    ensures ParseTickers(Join(ParseTickers(text), ',')) == ParseTickers(text)
  {
    var ts := ParseTickers(text);
    if ts == [] {
      assert Split([], ',') == [[]];
      assert Strip([]) == [];
    } else {
      JoinSplit(ts, ',');
      NormaliseWellFormed(ts);
    }
  }

  /** A whitespace-only segment between two commas contributes nothing:
      `"A, ,B"` gives the tickers of `"A"` followed by those of `"B"`. */
  lemma ParseTickersDropsBlank(x: string, blank: string, y: string)
    requires forall i :: 0 <= i < |blank| ==> IsSpace(blank[i])
    ensures ParseTickers(x + "," + blank + "," + y) == ParseTickers(x) + ParseTickers(y)
  {
    var z := blank + "," + y;
    assert x + "," + blank + "," + y == x + "," + z;
    ParseTickersBlank(blank);
    ParseTickersConcat(blank, y);
    assert ParseTickers(z) == ParseTickers(blank) + ParseTickers(y);
    assert ParseTickers(z) == ParseTickers(y);
    ParseTickersConcat(x, z);
    assert ParseTickers(x + "," + z) == ParseTickers(x) + ParseTickers(z);
  }

  /** A trailing comma adds no ticker. */
  lemma ParseTickersTrailingComma(x: string)
    ensures ParseTickers(x + ",") == ParseTickers(x)
  {
    assert x + "," == x + "," + "";
    ParseTickersBlank("");
    ParseTickersConcat(x, "");
    assert ParseTickers(x + "," + "") == ParseTickers(x) + ParseTickers("");
    assert ParseTickers(x) + ParseTickers("") == ParseTickers(x) + [];
    assert ParseTickers(x) + [] == ParseTickers(x);
  }

  /** The same text given twice yields its tickers twice: nothing is deduplicated. */
  lemma ParseTickersKeepsDuplicates(x: string)
    ensures |ParseTickers(x + "," + x)| == 2 * |ParseTickers(x)|
  {
    ParseTickersConcat(x, x);
  }
}
