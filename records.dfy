/** One daily record of the liquidity data set and the order of records by date. */
module Records {
  import opened Wrappers
  import opened Sequences

  /** A record as it appears in the JSON array; every numeric field may be absent (`null`). */
  datatype Record = Record(
    Date: string,
    WALCL: Option<real>,
    WDTGAL: Option<real>,
    RRPONTSYD: Option<real>,
    NetLiquidity: Option<real>,
    MA5: Option<real>,
    MA20: Option<real>,
    MA60: Option<real>,
    WoW: Option<real>,
    MoM: Option<real>,
    YoY: Option<real>)

  /** Lexicographic order on strings; on `YYYY-MM-DD` dates it is chronological order. */
  predicate StringBefore(a: string, b: string)
  {
    if a == [] then b != []
    else b != [] && (a[0] < b[0] || (a[0] == b[0] && StringBefore(a[1..], b[1..])))
  }

  /** Strictly increasing dates: the order of the feed as written. */
  predicate OldestFirst(data: seq<Record>)
  {
    forall i, j :: 0 <= i < j < |data| ==> StringBefore(data[i].Date, data[j].Date)
  }

  /** Strictly decreasing dates: the order the page holds the data set in. */
  predicate NewestFirst(data: seq<Record>)
  {
    forall i, j :: 0 <= i < j < |data| ==> StringBefore(data[j].Date, data[i].Date)
  }

  /** Reversing a feed in ascending date order gives the data set newest first. */
  lemma ReversedFeedIsNewestFirst(feed: seq<Record>)
    requires OldestFirst(feed)
    ensures NewestFirst(Reversed(feed))
  {
    ReversedEverywhere(feed);
  }

  /** And reversing a newest-first window restores chronological order. */
  lemma ReversedDataIsOldestFirst(data: seq<Record>)
    requires NewestFirst(data)
    ensures OldestFirst(Reversed(data))
  {
    ReversedEverywhere(data);
  }
}
