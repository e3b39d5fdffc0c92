/** Reading the rows of the signalling log (`strip_quotes` and the row loop
    of `parse_file`, analyze.py:232-256).  Every line is a comma-separated
    row whose columns are named by the header line; the `sdp` column is cut
    into lines at `????`, and the row is routed by its `callid` column to
    the call of that id, created on first sight, whose `add_value` takes it.

    The functions `ReadRow` and `ReadRows` state what the loop computes;
    `ParseFile` builds the calls as the analyser does and is proved against
    them. */
module Rows {
  import opened Errors
  import Text
  import Calls

  // ---------------------------------------------------------------------------
  // strip_quotes and the columns of a line

  /** The characters `strip_quotes` removes at either end of a column. */
  const QuoteChars: set<char> := {'"', ' '}

  /** A column that neither starts nor ends with a quote or a space. */
  predicate Clean(w: string)
  {
    w == [] || (w[0] !in QuoteChars && w[|w| - 1] !in QuoteChars)
  }

  /** `strip_quotes`: each column without the double quotes and spaces
      around it. */
  function StripQuotes(lst: seq<string>): (r: seq<string>)
    ensures |r| == |lst|
    ensures forall i :: 0 <= i < |r| ==> Clean(r[i])
  {
    seq(|lst|, i requires 0 <= i < |lst| => Text.Strip(lst[i], QuoteChars))
  }

  /** A column written between double quotes. */
  function Quoted(w: string): string
  {
    "\"" + w + "\""
  }

  /** Each column between double quotes. */
  function QuoteAll(ws: seq<string>): (r: seq<string>)
    ensures |r| == |ws|
  {
    seq(|ws|, i requires 0 <= i < |ws| => Quoted(ws[i]))
  }

  /** Unquoting gives back columns that were quoted. */
  lemma StripQuotesOfQuoted(ws: seq<string>)
    requires forall i :: 0 <= i < |ws| ==> Clean(ws[i])
    ensures StripQuotes(QuoteAll(ws)) == ws
  {
    forall i | 0 <= i < |ws|
      ensures Text.Strip(QuoteAll(ws)[i], QuoteChars) == ws[i]
    {
      assert Text.AllIn("\"", QuoteChars);
      Text.StripOfPadded("\"", ws[i], "\"", QuoteChars);
    }
  }

  /** Unquoting twice is unquoting once. */
  lemma StripQuotesIdempotent(lst: seq<string>)
    ensures StripQuotes(StripQuotes(lst)) == StripQuotes(lst)
  {
    forall i | 0 <= i < |lst|
      ensures Text.Strip(StripQuotes(lst)[i], QuoteChars) == StripQuotes(lst)[i]
    {
      Text.StripIdempotent(lst[i], QuoteChars);
    }
  }

  /** The columns of a line: the line without surrounding white space, split
      at every comma, each piece unquoted (analyze.py:238-239, 242-243). */
  function Columns(line: string): (r: seq<string>)
    ensures |r| >= 1
    ensures forall i :: 0 <= i < |r| ==> Clean(r[i])
  {
    StripQuotes(Text.Split(Text.Strip(line, Text.Whitespace), ","))
  }

  /** A column the log can quote: no comma or quote inside and no space at
      either end. */
  predicate Quotable(w: string)
  {
    Clean(w) && ',' !in w && '"' !in w
  }

  /** The columns of a row written as quoted columns joined by commas are
      the columns written. */
  lemma ColumnsOfRow(ws: seq<string>)
    requires |ws| >= 1
    requires forall i :: 0 <= i < |ws| ==> Quotable(ws[i])
    ensures Columns(Text.Join(QuoteAll(ws), ",")) == ws
  {
    var qs := QuoteAll(ws);
    var line := Text.Join(qs, ",");
    Text.JoinEnds(qs, ",");
    assert line[0] == '"' && line[|line| - 1] == '"';
    assert [] + line + [] == line;
    Text.StripOfPadded([], line, [], Text.Whitespace);
    assert forall i :: 0 <= i < |qs| ==> ',' !in qs[i];
    Text.SplitOfJoin(qs, ',');
    StripQuotesOfQuoted(ws);
  }

  // ---------------------------------------------------------------------------
  // One row

  /** The column under each header, the last of equal headers winning
      (analyze.py:248-250). */
  function Zip(hdrs: seq<string>, cols: seq<string>): map<string, string>
    requires |hdrs| == |cols|
    decreases |hdrs|
  {
    if hdrs == [] then map[]
    else Zip(hdrs[..|hdrs| - 1], cols[..|cols| - 1])[hdrs[|hdrs| - 1] := cols[|cols| - 1]]
  }

  /** Every header names a column, nothing else does, and a header that
      does not occur again later names its own column. */
  lemma {:induction false} ZipLookup(hdrs: seq<string>, cols: seq<string>)
    requires |hdrs| == |cols|
    ensures forall h :: h in Zip(hdrs, cols) <==> h in hdrs
    ensures forall i :: 0 <= i < |hdrs| && hdrs[i] !in hdrs[i + 1..] ==> Zip(hdrs, cols)[hdrs[i]] == cols[i]
    decreases |hdrs|
  {
    if hdrs != [] {
      var n := |hdrs| - 1;
      ZipLookup(hdrs[..n], cols[..n]);
      assert hdrs == hdrs[..n] + [hdrs[n]];
      forall i | 0 <= i < n && hdrs[i] !in hdrs[i + 1..]
        ensures Zip(hdrs, cols)[hdrs[i]] == cols[i]
      {
        assert hdrs[n] in hdrs[i + 1..];
        assert hdrs[..n][i + 1..] <= hdrs[i + 1..];
      }
    }
  }

  /** The loop of `parse_file` that builds the row's dictionary. */
  method ZipColumns(hdrs: seq<string>, cols: seq<string>) returns (val: map<string, string>)
    requires |hdrs| == |cols|
    ensures val == Zip(hdrs, cols)
  {
    val := map[];
    for i := 0 to |cols|
      invariant val == Zip(hdrs[..i], cols[..i])
    {
      assert hdrs[..i + 1][..i] == hdrs[..i] && cols[..i + 1][..i] == cols[..i];
      val := val[hdrs[i] := cols[i]];
    }
    assert hdrs[..|hdrs|] == hdrs && cols[..|cols|] == cols;
  }

  /** A data row: its call id and the value `add_value` receives. */
  datatype Row = Row(callid: string, value: Calls.Value)

  /** One data line under the headers `hdrs` (analyze.py:242-253): a column
      count other than the header's dies with "Bogus length", and a missing
      `sdp` or `callid` column raises, in that order. */
  function ReadRow(hdrs: seq<string>, line: string): (r: Result<Row>)
    ensures r.Err? <==>
      |Columns(line)| != |hdrs| || "sdp" !in hdrs || "callid" !in hdrs
    ensures r.Err? ==>
      r.fault == (if |Columns(line)| != |hdrs| then BogusLength
                  else if "sdp" !in hdrs then MissingColumn("sdp")
                  else MissingColumn("callid"))
    ensures r.Ok? ==> forall h :: h in r.value.value.fields <==> h in hdrs
    ensures r.Ok? ==> r.value.callid == r.value.value.fields["callid"]
  {
    var cols := Columns(line);
    if |cols| != |hdrs| then Err(BogusLength)
    else
      var val := Zip(hdrs, cols);
      ZipLookup(hdrs, cols);
      if "sdp" !in val then Err(MissingColumn("sdp"))
      else if "callid" !in val then Err(MissingColumn("callid"))
      else Ok(Row(val["callid"], Calls.Value(val, Text.Split(val["sdp"], "????"))))
  }

  /** A row written from quoted columns under distinct headers reads back:
      its call id is its `callid` column, its SDP lines are its `sdp` column
      cut at `????`, and every header names its own column. */
  lemma ReadRowOfQuoted(hdrs: seq<string>, ws: seq<string>, s: nat, c: nat)
    requires |ws| == |hdrs| >= 1
    requires forall i :: 0 <= i < |ws| ==> Quotable(ws[i])
    requires forall i, j :: 0 <= i < j < |hdrs| ==> hdrs[i] != hdrs[j]
    requires s < |hdrs| && hdrs[s] == "sdp" && c < |hdrs| && hdrs[c] == "callid"
    ensures var r := ReadRow(hdrs, Text.Join(QuoteAll(ws), ","));
      && r.Ok?
      && r.value.callid == ws[c]
      && r.value.value.sdp == Text.Split(ws[s], "????")
      && (forall i :: 0 <= i < |hdrs| ==> r.value.value.fields[hdrs[i]] == ws[i])
  {
    ColumnsOfRow(ws);
    ZipLookup(hdrs, ws);
    forall i | 0 <= i < |hdrs|
      ensures hdrs[i] !in hdrs[i + 1..]
    {
      LaterDiffer(hdrs, i);
    }
    var val := Zip(hdrs, ws);
    assert ReadRow(hdrs, Text.Join(QuoteAll(ws), ",")) == Ok(Row(val["callid"], Calls.Value(val, Text.Split(val["sdp"], "????"))));
  }

  /** In a sequence without repetitions an element does not occur again. */
  lemma LaterDiffer(hdrs: seq<string>, i: nat)
    requires i < |hdrs|
    requires forall a, b :: 0 <= a < b < |hdrs| ==> hdrs[a] != hdrs[b]
    ensures hdrs[i] !in hdrs[i + 1..]
  {
    var later := hdrs[i + 1..];
    assert forall k :: 0 <= k < |later| ==> later[k] == hdrs[i + 1 + k];
  }

  // ---------------------------------------------------------------------------
  // Routing rows to calls

  /** The row goes to the call of its id, a new one when the id is unseen. */
  function Route(calls: map<string, Calls.Exchange>, row: Row, dateOf: Calls.DateParser): (r: Result<map<string, Calls.Exchange>>)
    ensures var ex := if row.callid in calls then calls[row.callid] else Calls.NoExchange;
      && (r.Ok? <==> Calls.Added(ex, row.value, dateOf).Ok?)
      && (r.Err? ==> r.fault == Calls.Added(ex, row.value, dateOf).fault)
      && (r.Ok? ==> r.value.Keys == calls.Keys + {row.callid})
      && (r.Ok? ==> r.value[row.callid] == Calls.Added(ex, row.value, dateOf).value)
      && (r.Ok? ==> forall id :: id in calls && id != row.callid ==> r.value[id] == calls[id])
  {
    var ex := if row.callid in calls then calls[row.callid] else Calls.NoExchange;
    var ex' :- Calls.Added(ex, row.value, dateOf);
    Ok(calls[row.callid := ex'])
  }

  /** The data lines read under the headers `hdrs`, one result per line. */
  function ReadLines(hdrs: seq<string>, lines: seq<string>): (r: seq<Result<Row>>)
    ensures |r| == |lines|
    ensures forall i :: 0 <= i < |lines| ==> r[i] == ReadRow(hdrs, lines[i])
  {
    seq(|lines|, i requires 0 <= i < |lines| => ReadRow(hdrs, lines[i]))
  }

  /** What the calls hold after the rows `results`, by call id, or the fault
      of the first row that aborts, whether in reading the line or in
      `add_value`. */
  function RouteRows(results: seq<Result<Row>>, dateOf: Calls.DateParser): Result<map<string, Calls.Exchange>>
    decreases |results|
  {
    if results == [] then Ok(map[])
    else
      var calls :- RouteRows(results[..|results| - 1], dateOf);
      var row :- results[|results| - 1];
      Route(calls, row, dateOf)
  }

  /** What `parse_file` leaves in `CALLS` after the data lines `lines`. */
  function ReadRows(hdrs: seq<string>, lines: seq<string>, dateOf: Calls.DateParser): Result<map<string, Calls.Exchange>>
  {
    RouteRows(ReadLines(hdrs, lines), dateOf)
  }

  /** A fault in a prefix of the rows is the fault of the whole log. */
  lemma {:induction false} RouteRowsPrefixErr(results: seq<Result<Row>>, dateOf: Calls.DateParser, k: nat)
    requires k <= |results| && RouteRows(results[..k], dateOf).Err?
    ensures RouteRows(results, dateOf) == RouteRows(results[..k], dateOf)
    decreases |results|
  {
    if k < |results| {
      var init := results[..|results| - 1];
      assert init[..k] == results[..k];
      RouteRowsPrefixErr(init, dateOf, k);
    } else {
      assert results[..k] == results;
    }
  }

  /** One more row is routed over the calls of the rows before it. */
  lemma RouteRowsStep(results: seq<Result<Row>>, dateOf: Calls.DateParser, i: nat)
    requires i < |results| && RouteRows(results[..i], dateOf).Ok?
    ensures RouteRows(results[..i + 1], dateOf) ==
      if results[i].Err? then Err(results[i].fault)
      else Route(RouteRows(results[..i], dateOf).value, results[i].value, dateOf)
  {
    assert results[..i + 1][..i] == results[..i];
  }

  /** The events the rows of call `id` deliver, typed, in order. */
  function ItemsFor(results: seq<Result<Row>>, dateOf: Calls.DateParser, id: string): seq<(string, Calls.Event)>
    decreases |results|
  {
    if results == [] then []
    else
      var before := ItemsFor(results[..|results| - 1], dateOf, id);
      match results[|results| - 1]
      case Ok(Row(callid, v)) =>
        if callid == id && "date" in v.fields && dateOf(v.fields["date"]).Some? && "type" in v.fields
        then before + [(v.fields["type"], Calls.Event(v.sdp, dateOf(v.fields["date"]).value))]
        else before
      case Err(_) => before
  }

  /** Every call holds exactly what its own rows deliver, ingested in
      order from nothing; a call no row names does not exist. */
  lemma {:induction false} RoutedToOwnCall(results: seq<Result<Row>>, dateOf: Calls.DateParser, id: string)
    requires RouteRows(results, dateOf).Ok?
    ensures var calls := RouteRows(results, dateOf).value;
      Calls.IngestAll(Calls.NoExchange, ItemsFor(results, dateOf, id))
        == Ok(if id in calls then calls[id] else Calls.NoExchange)
    decreases |results|
  {
    if results != [] {
      var init := results[..|results| - 1];
      RoutedToOwnCall(init, dateOf, id);
      var row := results[|results| - 1].value;
      var items := ItemsFor(init, dateOf, id);
      if row.callid == id {
        var v := row.value;
        var x := (v.fields["type"], Calls.Event(v.sdp, dateOf(v.fields["date"]).value));
        assert (items + [x])[..|items|] == items;
      }
    }
  }

  /** Every row is read and names a call that exists afterwards. */
  lemma {:induction false} RowsHaveCalls(results: seq<Result<Row>>, dateOf: Calls.DateParser)
    requires RouteRows(results, dateOf).Ok?
    ensures forall i :: 0 <= i < |results| ==>
      results[i].Ok? && results[i].value.callid in RouteRows(results, dateOf).value
    decreases |results|
  {
    if results != [] {
      var init := results[..|results| - 1];
      RowsHaveCalls(init, dateOf);
      assert forall i :: 0 <= i < |init| ==> results[i] == init[i];
    }
  }

  /** Every call that exists is named by some row. */
  lemma {:induction false} CallsHaveRows(results: seq<Result<Row>>, dateOf: Calls.DateParser, id: string)
    requires RouteRows(results, dateOf).Ok? && id in RouteRows(results, dateOf).value
    ensures exists i :: 0 <= i < |results| && results[i].Ok? && results[i].value.callid == id
    decreases |results|
  {
    var init := results[..|results| - 1];
    var last := |results| - 1;
    if results[last].value.callid != id {
      CallsHaveRows(init, dateOf, id);
      var i :| 0 <= i < |init| && init[i].Ok? && init[i].value.callid == id;
      assert results[i] == init[i];
    }
  }

  // ---------------------------------------------------------------------------
  // parse_file

  /** Lines 242-251 of `parse_file`: one data line read into a row. */
  method ReadLine(hdrs: seq<string>, line: string) returns (r: Result<Row>)
    ensures r == ReadRow(hdrs, line)
  {
    var cols := Columns(line);
    if |cols| != |hdrs| {
      return Err(BogusLength);
    }
    var val := ZipColumns(hdrs, cols);
    if "sdp" !in val {
      return Err(MissingColumn("sdp"));
    }
    var sdp := Text.Split(val["sdp"], "????");
    if "callid" !in val {
      return Err(MissingColumn("callid"));
    }
    return Ok(Row(val["callid"], Calls.Value(val, sdp)));
  }

  /** `parse_file`: the headers are the columns of the first line `header`,
      and the data lines `lines` are then read and routed in order to call
      objects by id; the calls are new, fresh from `Call(callid)`, and hold
      what `ReadRows` says, or the first fault aborts. */
  method ParseFile(header: string, lines: seq<string>, dateOf: Calls.DateParser) returns (r: Result<map<string, Calls.Call>>)
    ensures var spec := ReadRows(Columns(header), lines, dateOf);
      && (r.Ok? <==> spec.Ok?)
      && (spec.Err? ==> r.fault == spec.fault)
      && (r.Ok? ==> r.value.Keys == spec.value.Keys)
      && (r.Ok? ==> forall id :: id in r.value ==>
            && fresh(r.value[id])
            && r.value[id].callid == id
            && r.value[id].Exchanged() == spec.value[id]
            && r.value[id].failed == None && r.value[id].warnings == [] && r.value[id].direction == None)
  {
    var hdrs := Columns(header);
    r := ParseRows(hdrs, lines, dateOf);
  }

  /** The call objects `calls` are those of `spec`, one per id, each
      carrying its id, holding what `spec` says, and not yet analysed. */
  ghost predicate Holds(calls: map<string, Calls.Call>, spec: map<string, Calls.Exchange>)
    reads set id | id in calls :: calls[id]
  {
    && calls.Keys == spec.Keys
    && (forall id :: id in calls ==> calls[id].callid == id && calls[id].Exchanged() == spec[id])
    && (forall id :: id in calls ==>
          calls[id].failed == None && calls[id].warnings == [] && calls[id].direction == None)
  }

  /** Lines 253-256 of `parse_file`: the row goes to the call of its id,
      created on first sight, whose `add_value` takes it. */
  method Deliver(calls: map<string, Calls.Call>, ghost spec: map<string, Calls.Exchange>, row: Row, dateOf: Calls.DateParser)
    returns (r: Result<map<string, Calls.Call>>)
    requires Holds(calls, spec)
    modifies if row.callid in calls then {calls[row.callid]} else {}
    ensures var s := Route(spec, row, dateOf);
      && (r.Ok? <==> s.Ok?)
      && (s.Err? ==> r.fault == s.fault)
      && (r.Ok? ==> Holds(r.value, s.value))
      && (r.Ok? ==> forall id :: id in r.value ==> (id in calls && r.value[id] == calls[id]) || fresh(r.value[id]))
  {
    var id := row.callid;
    var call: Calls.Call;
    var after := calls;
    if id in calls {
      call := calls[id];
    } else {
      call := new Calls.Call(id);
      after := calls[id := call];
    }
    var o := call.AddValue(row.value, dateOf);
    if o.Fail? {
      return Err(o.fault);
    }
    ghost var s := Route(spec, row, dateOf).value;
    assert s == spec[id := call.Exchanged()];
    forall other | other in after
      ensures after[other].callid == other && after[other].Exchanged() == s[other]
      ensures after[other].failed == None && after[other].warnings == [] && after[other].direction == None
    {
      if other != id {
        assert after[other] == calls[other] && calls[other].callid == other;
      }
    }
    assert after.Keys == s.Keys;
    return Ok(after);
  }

  /** Lines 242-256 of `parse_file` for one data line: it is read into a row,
      which is then delivered to the call of its id. */
  method Feed(hdrs: seq<string>, line: string, calls: map<string, Calls.Call>,
              ghost spec: map<string, Calls.Exchange>, dateOf: Calls.DateParser)
    returns (r: Result<map<string, Calls.Call>>)
    requires Holds(calls, spec)
    modifies set id | id in calls :: calls[id]
    ensures var row := ReadRow(hdrs, line);
      var s := if row.Err? then Err(row.fault) else Route(spec, row.value, dateOf);
      && (r.Ok? <==> s.Ok?)
      && (s.Err? ==> r.fault == s.fault)
      && (r.Ok? ==> Holds(r.value, s.value))
      && (r.Ok? ==> forall id :: id in r.value ==> (id in calls && r.value[id] == calls[id]) || fresh(r.value[id]))
  {
    var row := ReadLine(hdrs, line);
    if row.Err? {
      return Err(row.fault);
    }
    r := Deliver(calls, spec, row.value, dateOf);
  }

  /** Lines 241-256 of `parse_file`: each data line is read under the
      headers `hdrs` and routed to the call object of its id, created on
      first sight. */
  method ParseRows(hdrs: seq<string>, lines: seq<string>, dateOf: Calls.DateParser) returns (r: Result<map<string, Calls.Call>>)
    ensures var spec := ReadRows(hdrs, lines, dateOf);
      && (r.Ok? <==> spec.Ok?)
      && (spec.Err? ==> r.fault == spec.fault)
      && (r.Ok? ==> r.value.Keys == spec.value.Keys)
      && (r.Ok? ==> forall id :: id in r.value ==>
            && fresh(r.value[id])
            && r.value[id].callid == id
            && r.value[id].Exchanged() == spec.value[id]
            && r.value[id].failed == None && r.value[id].warnings == [] && r.value[id].direction == None)
  {
    ghost var results := ReadLines(hdrs, lines);
    var calls: map<string, Calls.Call> := map[];
    ghost var spec: map<string, Calls.Exchange> := map[];
    for i := 0 to |lines|
      invariant RouteRows(results[..i], dateOf) == Ok(spec)
      invariant Holds(calls, spec)
      invariant forall id :: id in calls ==> fresh(calls[id])
    {
      var next := Feed(hdrs, lines[i], calls, spec, dateOf);
      RouteRowsStep(results, dateOf, i);
      if next.Err? {
        RouteRowsPrefixErr(results, dateOf, i + 1);
        return Err(next.fault);
      }
      calls := next.value;
      spec := RouteRows(results[..i + 1], dateOf).value;
    }
    assert results[..|lines|] == results;
    return Ok(calls);
  }
}
