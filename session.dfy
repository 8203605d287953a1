/**
 * The page session: the data set the loader fills, the table body, and the one chart
 * instance the chart view keeps.
 */
module Page {
  import opened Sequences
  import opened Records
  import opened Table
  import opened ChartView

  /** What the fetch of the JSON file produced: the parsed array, or a network or parse failure. */
  datatype FetchOutcome = Fetched(records: seq<Record>) | FetchFailed

  class Session {
    var data: seq<Record>
    var tbody: seq<TableRow>
    var chart: Chart?
    /** Every chart instance ever built in this session. */
    ghost var charts: set<Chart>

    /** Only the current chart instance, if any, is live. */
    ghost predicate Valid()
      reads this, charts
    {
      (chart == null <==> charts == {}) &&
      (chart != null ==> chart in charts && chart.live) &&
      forall c :: c in charts && c != chart ==> !c.live
    }

    /** A fresh page: no data, no chart, and whatever rows the page's markup starts with. */
    constructor (initialRows: seq<TableRow>)
      ensures Valid()
      ensures data == [] && tbody == initialRows && chart == null && charts == {}
    {
      data := [];
      tbody := initialRows;
      chart := null;
      charts := {};
    }

    /** `populateTable`: clears the body, then appends one row per record in data set order. */
    method PopulateTable()
      modifies this`tbody
      ensures tbody == TableBody(data)
    {
      tbody := [];
      for i := 0 to |data|
        invariant tbody == TableBody(data[..i])
      {
        tbody := tbody + [DataRow(DisplayRow(data[i]))];
      }
      assert data[..|data|] == data;
    }

    /**
     * The load handlers: on success the fetched array is reversed in place and becomes the
     * data set, and the table is rendered; on failure the data set is left as it is and the
     * table body becomes the single failure row.
     */
    method Load(outcome: FetchOutcome)
      requires Valid()
      modifies this
      ensures Valid()
      ensures outcome.Fetched? ==> data == Reversed(outcome.records) && tbody == TableBody(data)
      ensures outcome.FetchFailed? ==> data == old(data) && tbody == [FailureRow]
      ensures chart == old(chart) && charts == old(charts)
    {
      match outcome
      case Fetched(records) =>
        var fetched := new Record[|records|](i requires 0 <= i < |records| => records[i]);
        assert fetched[..] == records;
        ReverseInPlace(fetched);
        data := fetched[..];
        PopulateTable();
      case FetchFailed =>
        tbody := [FailureRow];
    }

    /**
     * `renderChart`: destroys the previous chart instance, if there is one, then builds a
     * new one from the chart window of the data set; afterwards the new instance is the only
     * live one of all built in this session.
     */
    method RenderChart()
      requires Valid()
      modifies this, charts
      ensures Valid()
      ensures chart != null && fresh(chart) && charts == old(charts) + {chart}
      ensures forall c :: c in charts ==> (c.live <==> c == chart)
      ensures chart.series == ChartOf(data)
      ensures data == old(data) && tbody == old(tbody)
    {
      if chart != null {
        chart.Destroy();
      }
      var k := Min(|data|, WindowSize);
      var recent := data[..k];
      var graphData := new Record[k](i requires 0 <= i < k => recent[i]);
      assert graphData[..] == recent;
      ReverseInPlace(graphData);
      chart := new Chart(SeriesOf(graphData[..]));
      charts := charts + {chart};
    }
  }

  /** A failed load followed by two visits to the chart view. */
  method FailedLoadThenChartTwice(initialRows: seq<TableRow>)
  {
    var s := new Session(initialRows);
    s.Load(FetchFailed);
    assert s.data == [] && s.tbody == [FailureRow];
    s.RenderChart();
    var first := s.chart;
    s.RenderChart();
    assert !first.live && s.chart.live;
    assert (set c | c in s.charts && c.live) == {s.chart};
  }

  /** Rendering the table twice leaves the same body as rendering it once. */
  method PopulateTwice(s: Session)
    modifies s
  {
    s.PopulateTable();
    var once := s.tbody;
    s.PopulateTable();
    assert s.tbody == once;
  }
}
