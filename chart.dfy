/**
 * The chart view's data: the most recent 250 records in chronological order, projected
 * to one label array and four series, and the chart instance built from them.
 */
module ChartView {
  import opened Wrappers
  import opened Sequences
  import opened Records

  /** About one year of business days. */
  const WindowSize: nat := 250

  /** `String.prototype.substring(start)`: the characters from `start` on, empty when `start` is past the end. */
  function Substring(s: string, start: nat): (r: string)
    ensures start <= |s| ==> s[..start] + r == s
    ensures start > |s| ==> r == ""
  {
    if start <= |s| then s[start..] else ""
  }

  /** The axis label of a date: the date without its first five characters (`YYYY-`). */
  function Label(date: string): string
  {
    Substring(date, 5)
  }

  /** A `YYYY-MM-DD` date keeps exactly its `MM-DD` part. */
  lemma LabelDropsYear(date: string)
    requires |date| == 10
    ensures |Label(date)| == 5 && date[..5] + Label(date) == date
  {
  }

  lemma LabelExample()
    ensures Label("2024-03-07") == "03-07"
  {
  }

  /** The chart's data: one label array and four parallel value arrays. */
  datatype ChartSeries = ChartSeries(
    labels: seq<string>,
    daily: seq<Option<real>>,
    ma5: seq<Option<real>>,
    ma20: seq<Option<real>>,
    ma60: seq<Option<real>>)

  /**
   * `slice(0, 250).reverse()` on the newest-first data set: the most recent
   * `min(|data|, 250)` records, oldest first.
   */
  function ChartWindow(data: seq<Record>): (w: seq<Record>)
    ensures |w| == Min(|data|, WindowSize)
    ensures forall i :: 0 <= i < |w| ==> w[i] == data[|w| - 1 - i]
  {
    var recent := data[..Min(|data|, WindowSize)];
    ReversedEverywhere(recent);
    Reversed(recent)
  }

  /** The five `map` projections of the chart data. */
  function SeriesOf(graph: seq<Record>): ChartSeries
  {
    ChartSeries(
      seq(|graph|, i requires 0 <= i < |graph| => Label(graph[i].Date)),
      seq(|graph|, i requires 0 <= i < |graph| => graph[i].NetLiquidity),
      seq(|graph|, i requires 0 <= i < |graph| => graph[i].MA5),
      seq(|graph|, i requires 0 <= i < |graph| => graph[i].MA20),
      seq(|graph|, i requires 0 <= i < |graph| => graph[i].MA60))
  }

  /** What the chart of a data set shows. */
  function ChartOf(data: seq<Record>): ChartSeries
  {
    SeriesOf(ChartWindow(data))
  }

  /**
   * All five arrays have `k = min(|data|, 250)` entries, and entry `i` comes from record
   * `k - 1 - i` of the newest-first data set: its date without the year, and its daily
   * and moving-average values as they are, an absent value staying absent.
   */
  lemma ChartOfData(data: seq<Record>)
    ensures var k := Min(|data|, WindowSize);
      var c := ChartOf(data);
      |c.labels| == k && |c.daily| == k && |c.ma5| == k && |c.ma20| == k && |c.ma60| == k &&
      forall i :: 0 <= i < k ==>
        c.labels[i] == Label(data[k - 1 - i].Date) &&
        c.daily[i] == data[k - 1 - i].NetLiquidity &&
        c.ma5[i] == data[k - 1 - i].MA5 &&
        c.ma20[i] == data[k - 1 - i].MA20 &&
        c.ma60[i] == data[k - 1 - i].MA60
  {
  }

  /** A data set held newest first is charted oldest first. */
  lemma ChartWindowIsChronological(data: seq<Record>)
    requires NewestFirst(data)
    ensures OldestFirst(ChartWindow(data))
  {
    var recent := data[..Min(|data|, WindowSize)];
    assert NewestFirst(recent);
    ReversedDataIsOldestFirst(recent);
  }

  /**
   * The window of a data set that holds the fetched feed reversed, element by element, is
   * the last `min(|feed|, 250)` records of the feed, in the feed's own order.
   */
  lemma WindowOfReversal(feed: seq<Record>, data: seq<Record>)
    requires |data| == |feed|
    requires forall j :: 0 <= j < |feed| ==> data[j] == feed[|feed| - 1 - j]
    ensures ChartWindow(data) == feed[|feed| - Min(|feed|, WindowSize)..]
  {
    var k := Min(|feed|, WindowSize);
    var w := ChartWindow(data);
    var tail := feed[|feed| - k..];
    forall i | 0 <= i < k
      ensures w[i] == tail[i]
    {
      assert w[i] == data[k - 1 - i];
    }
  }

  /**
   * End to end: the chart's reversal undoes the loader's, so the chart shows the newest
   * `min(|feed|, 250)` records of the fetched feed in the feed's order (all of it when
   * the feed has at most 250 records).
   */
  lemma ChartOfFeed(feed: seq<Record>)
    ensures ChartWindow(Reversed(feed)) == feed[|feed| - Min(|feed|, WindowSize)..]
    ensures |feed| <= WindowSize ==> ChartWindow(Reversed(feed)) == feed
  {
    ReversedEverywhere(feed);
    WindowOfReversal(feed, Reversed(feed));
  }

  /** A chart instance: the data it was built from, and whether it is still live (not destroyed). */
  class Chart {
    const series: ChartSeries
    var live: bool

    constructor (series: ChartSeries)
      ensures this.series == series && live
    {
      this.series := series;
      live := true;
    }

    method Destroy()
      modifies this
      ensures !live
    {
      live := false;
    }
  }
}
