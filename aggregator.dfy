/** The history aggregator of app.py (`process_chat_history` without the
    chart): it walks the uploaded list once, skips what it cannot use,
    adds each usable conversation's message count to a per-day tally and
    a summary row to a table, then sorts the table newest first and sums
    the tally. */
module Aggregator {
  import opened Common
  import opened Timestamps
  import opened Export
  import opened Analyzer
  import opened Ordering

  const ExpectedList: string := "Expected a list of conversations"
  const NoValidConversations: string := "No valid conversations found in the data."

  // ---------------------------------------------------------------------
  // The per-day tally, a Python dict

  /** The dict `message_counts`: its keys in insertion order, and its contents. */
  datatype DailyCounts = DailyCounts(dates: seq<Date>, count: map<Date, nat>)

  /** The keys listed once each, and exactly the keys of the contents. */
  ghost predicate WellFormed(h: DailyCounts)
  {
    && (forall d :: d in h.dates <==> d in h.count)
    && (forall i, j :: 0 <= i < j < |h.dates| ==> h.dates[i] != h.dates[j])
  }

  /** `message_counts[d] = message_counts.get(d, 0) + n`: a new key goes
      to the end of the insertion order. */
  function Add(h: DailyCounts, d: Date, n: nat): DailyCounts
  {
    if d in h.count then DailyCounts(h.dates, h.count[d := h.count[d] + n])
    else DailyCounts(h.dates + [d], h.count[d := n])
  }

  /** The sum of `count` over `dates`. */
  function SumOver(dates: seq<Date>, count: map<Date, nat>): nat
  {
    if dates == [] then 0
    else (if dates[0] in count then count[dates[0]] else 0) + SumOver(dates[1..], count)
  }

  /** `sum(message_counts.values())` */
  function Total(h: DailyCounts): nat
  {
    SumOver(h.dates, h.count)
  }

  lemma {:induction false} SumOverFrame(dates: seq<Date>, count: map<Date, nat>, d: Date, v: nat)
    requires d !in dates
    ensures SumOver(dates, count[d := v]) == SumOver(dates, count)
  {
    if dates != [] {
      SumOverFrame(dates[1..], count, d, v);
    }
  }

  lemma {:induction false} SumOverUpdate(dates: seq<Date>, count: map<Date, nat>, d: Date, v: nat)
    requires d in dates && d in count
    requires forall i, j :: 0 <= i < j < |dates| ==> dates[i] != dates[j]
    ensures SumOver(dates, count[d := v]) + count[d] == SumOver(dates, count) + v
  {
    if dates[0] == d {
      assert d !in dates[1..];
      SumOverFrame(dates[1..], count, d, v);
    } else {
      SumOverUpdate(dates[1..], count, d, v);
    }
  }

  lemma {:induction false} SumOverAppend(dates: seq<Date>, d: Date, count: map<Date, nat>)
    ensures SumOver(dates + [d], count) == SumOver(dates, count) + (if d in count then count[d] else 0)
  {
    if dates == [] {
      assert dates + [d] == [d];
    } else {
      assert (dates + [d])[1..] == dates[1..] + [d];
      SumOverAppend(dates[1..], d, count);
    }
  }

  /** Adding `n` under a date keeps the dict well formed and raises the
      sum of its values by exactly `n`. */
  lemma AddTotal(h: DailyCounts, d: Date, n: nat)
    requires WellFormed(h)
    ensures WellFormed(Add(h, d, n))
    ensures Total(Add(h, d, n)) == Total(h) + n
  {
    if d in h.count {
      SumOverUpdate(h.dates, h.count, d, h.count[d] + n);
    } else {
      SumOverFrame(h.dates, h.count, d, n);
      SumOverAppend(h.dates, d, h.count[d := n]);
    }
  }

  // ---------------------------------------------------------------------
  // What one conversation contributes

  /** One contributing conversation: the date it is filed under and its row in the table. */
  datatype Row = Row(date: Date, summary: Summary)

  /** `conversation.get('title', 'Untitled')`; a `null` title stays `None`. */
  function TitleOf(c: Conversation): (t: Option<string>)
    ensures c.title.Missing? ==> t == Some("Untitled")
  {
    match c.title
    case Missing => Some("Untitled")
    case Null => None
    case Present(s) => Some(s)
  }

  /** What one element of the uploaded list contributes, or the exception
      processing it raises. A non-dict element, a falsy `create_time`
      (missing, `null`, 0 or "") and an unparseable one contribute nothing. */
  function Visit(cal: Calendar, e: Entry): (r: Result<Option<Row>>)
    ensures r == Ok(None) <==>
      e.NotARecord? || !Truthy(e.conv.createTime) || ParseTimestamp(cal, e.conv.createTime) == Ok(None)
    ensures
      && e.Record? && Truthy(e.conv.createTime)
      && ParseTimestamp(cal, e.conv.createTime).Ok? && ParseTimestamp(cal, e.conv.createTime).value.Some?
      && LastReply(e).Ok?
      ==> r.Ok? && r.value.Some?
    ensures r.Ok? && r.value.Some? ==>
      && e.Record?
      && ParseTimestamp(cal, e.conv.createTime).Ok?
      && ParseTimestamp(cal, e.conv.createTime).value.Some?
      && r.value.value.date == ParseTimestamp(cal, e.conv.createTime).value.value.date
      && r.value.value.summary.title == TitleOf(e.conv)
      && r.value.value.summary.createTime == e.conv.createTime
      && r.value.value.summary.messageCount == Tally(Nodes(e))
      && LastReply(e) == Ok(r.value.value.summary.lastResponse)
  {
    if e.NotARecord? || !Truthy(e.conv.createTime) then Ok(None)
    else match ParseTimestamp(cal, e.conv.createTime)
      case Raise(x) => Raise(x)
      case Ok(None) => Ok(None)
      case Ok(Some(dt)) =>
        match LastReply(e)
        case Raise(x) => Raise(x)
        case Ok(reply) =>
          Ok(Some(Row(dt.date, Summary(TitleOf(e.conv), e.conv.createTime, Tally(Nodes(e)), reply))))
  }

  /** The loop over the uploaded list: the rows of the contributing
      conversations in list order, or the first exception raised. */
  function Walk(cal: Calendar, entries: seq<Entry>): Result<seq<Row>>
  {
    if entries == [] then Ok([])
    else match Walk(cal, entries[..|entries| - 1])
      case Raise(x) => Raise(x)
      case Ok(rows) =>
        match Visit(cal, entries[|entries| - 1])
        case Raise(x) => Raise(x)
        case Ok(None) => Ok(rows)
        case Ok(Some(row)) => Ok(rows + [row])
  }

  /** The per-day tally built from the rows, in order. */
  function Histogram(rows: seq<Row>): DailyCounts
  {
    if rows == [] then DailyCounts([], map[])
    else
      var row := rows[|rows| - 1];
      Add(Histogram(rows[..|rows| - 1]), row.date, row.summary.messageCount)
  }

  /** The summary table before the sort. */
  function Summaries(rows: seq<Row>): (s: seq<Summary>)
    ensures |s| == |rows|
    ensures forall i :: 0 <= i < |rows| ==> s[i] == rows[i].summary
  {
    if rows == [] then [] else Summaries(rows[..|rows| - 1]) + [rows[|rows| - 1].summary]
  }

  /** The sum of the message counts of the rows dated `d`. */
  function CountOn(rows: seq<Row>, d: Date): nat
  {
    if rows == [] then 0
    else CountOn(rows[..|rows| - 1], d) + (if rows[|rows| - 1].date == d then rows[|rows| - 1].summary.messageCount else 0)
  }

  /** The sum of the message counts in a table. */
  function SumCounts(s: seq<Summary>): nat
  {
    if s == [] then 0 else s[0].messageCount + SumCounts(s[1..])
  }

  // ---------------------------------------------------------------------
  // process_chat_history

  /** The statistics returned: `total_messages`, `daily_stats` and `conversations`. */
  datatype Stats = Stats(totalMessages: nat, dailyStats: DailyCounts, conversations: seq<Summary>)

  /** What `process_chat_history` returns for `data`, or the exception it raises. */
  function Aggregate(cal: Calendar, data: Input): Result<Stats>
  {
    if data.NotAList? then Raise(ValueError(ExpectedList))
    else match Walk(cal, data.entries)
      case Raise(x) => Raise(x)
      case Ok(rows) =>
        var messageCounts := Histogram(rows);
        var table := Summaries(rows);
        if messageCounts.count == map[] then Raise(ValueError(NoValidConversations))
        else if !Sortable(table) then Raise(TypeError)
        else Ok(Stats(Total(messageCounts), messageCounts, SortNewestFirst(table)))
  }

  /** `process_chat_history`, up to the chart. */
  method ProcessChatHistory(cal: Calendar, data: Input) returns (r: Result<Stats>)
    ensures data.NotAList? ==> r == Raise(ValueError(ExpectedList))
    ensures r == Aggregate(cal, data)
  {
    if data.NotAList? {
      return Raise(ValueError(ExpectedList));
    }
    var entries := data.entries;
    var messageCounts := DailyCounts([], map[]);
    var conversationsData: seq<Summary> := [];
    ghost var rows: seq<Row> := [];
    for i := 0 to |entries|
      invariant Walk(cal, entries[..i]) == Ok(rows)
      invariant messageCounts == Histogram(rows)
      invariant conversationsData == Summaries(rows)
    {
      assert entries[..i + 1][..i] == entries[..i];
      var conversation := entries[i];
      if conversation.NotARecord? {
        continue;
      }
      var createTime := conversation.conv.createTime;
      if Truthy(createTime) {
        var parsedDate := ParseTimestamp(cal, createTime);
        if parsedDate.Raise? {
          WalkRaisePersists(cal, entries, i + 1);
          return Raise(parsedDate.exc);
        }
        if parsedDate.value.Some? {
          var msgCount := CountMessages(conversation);
          var date := parsedDate.value.value.date;
          messageCounts := Add(messageCounts, date, msgCount);
          var lastResponse := LastResponse(conversation);
          if lastResponse.Raise? {
            WalkRaisePersists(cal, entries, i + 1);
            return Raise(lastResponse.exc);
          }
          var convData := Summary(TitleOf(conversation.conv), createTime, msgCount, lastResponse.value);
          conversationsData := conversationsData + [convData];
          assert (rows + [Row(date, convData)])[..|rows|] == rows;
          rows := rows + [Row(date, convData)];
        }
      }
    }
    assert entries[..|entries|] == entries;
    if messageCounts.count == map[] {
      return Raise(ValueError(NoValidConversations));
    }
    if !Sortable(conversationsData) {
      return Raise(TypeError);
    }
    conversationsData := SortNewestFirst(conversationsData);
    r := Ok(Stats(Total(messageCounts), messageCounts, conversationsData));
  }

  /** Once the walk has raised on a prefix, it raises the same on the whole list. */
  lemma {:induction false} WalkRaisePersists(cal: Calendar, entries: seq<Entry>, k: nat)
    requires k <= |entries|
    requires Walk(cal, entries[..k]).Raise?
    ensures Walk(cal, entries) == Walk(cal, entries[..k])
    decreases |entries| - k
  {
    if k == |entries| {
      assert entries[..k] == entries;
    } else {
      assert entries[..k + 1][..k] == entries[..k];
      WalkRaisePersists(cal, entries, k + 1);
    }
  }

  // ---------------------------------------------------------------------
  // What the aggregation promises

  lemma {:induction false} SumCountsAppend(s: seq<Summary>, x: Summary)
    ensures SumCounts(s + [x]) == SumCounts(s) + x.messageCount
  {
    if s == [] {
      assert s + [x] == [x];
    } else {
      assert (s + [x])[1..] == s[1..] + [x];
      SumCountsAppend(s[1..], x);
    }
  }

  lemma {:induction false} SumCountsConcat(a: seq<Summary>, b: seq<Summary>)
    ensures SumCounts(a + b) == SumCounts(a) + SumCounts(b)
  {
    if a == [] {
      assert a + b == b;
    } else {
      assert (a + b)[1..] == a[1..] + b;
      SumCountsConcat(a[1..], b);
    }
  }

  /** Reordering a table does not change the sum of its message counts. */
  lemma {:induction false} SumCountsPermutation(a: seq<Summary>, b: seq<Summary>)
    requires multiset(a) == multiset(b)
    ensures SumCounts(a) == SumCounts(b)
  {
    if a == [] {
      assert |b| == |multiset(b)| == 0;
    } else {
      var x := a[0];
      assert a == [x] + a[1..];
      assert x in multiset(b);
      var j :| 0 <= j < |b| && b[j] == x;
      var rest := b[..j] + b[j + 1..];
      assert b == b[..j] + [x] + b[j + 1..];
      assert multiset(b) == multiset(b[..j]) + multiset{x} + multiset(b[j + 1..]);
      assert multiset(a) == multiset{x} + multiset(a[1..]);
      assert multiset(rest) == multiset(b[..j]) + multiset(b[j + 1..]);
      assert multiset(a[1..]) == multiset(a) - multiset{x};
      assert multiset(rest) == multiset(b) - multiset{x};
      SumCountsPermutation(a[1..], rest);
      SumCountsConcat(b[..j] + [x], b[j + 1..]);
      SumCountsAppend(b[..j], x);
      SumCountsConcat(b[..j], b[j + 1..]);
    }
  }

  /** The tally is a well-formed dict, and the sum of its values is the
      sum of the message counts in the table. */
  lemma {:induction false} HistogramTotal(rows: seq<Row>)
    ensures WellFormed(Histogram(rows))
    ensures Total(Histogram(rows)) == SumCounts(Summaries(rows))
  {
    if rows != [] {
      var init := rows[..|rows| - 1];
      var row := rows[|rows| - 1];
      HistogramTotal(init);
      AddTotal(Histogram(init), row.date, row.summary.messageCount);
      SumCountsAppend(Summaries(init), row.summary);
    }
  }

  /** A date is in the tally exactly when some contributing conversation
      is filed under it, and its entry is the sum of their message counts. */
  lemma {:induction false} HistogramCounts(rows: seq<Row>, d: Date)
    ensures d in Histogram(rows).count <==> exists i :: 0 <= i < |rows| && rows[i].date == d
    ensures d in Histogram(rows).count ==> Histogram(rows).count[d] == CountOn(rows, d)
  {
    if rows != [] {
      var init := rows[..|rows| - 1];
      HistogramCounts(init, d);
      assert forall i :: 0 <= i < |init| ==> init[i] == rows[i];
      if d !in Histogram(init).count {
        assert CountOn(init, d) == 0 by { CountOnAbsent(init, d); }
      }
    }
  }

  lemma {:induction false} CountOnAbsent(rows: seq<Row>, d: Date)
    requires forall i :: 0 <= i < |rows| ==> rows[i].date != d
    ensures CountOn(rows, d) == 0
  {
    if rows != [] {
      CountOnAbsent(rows[..|rows| - 1], d);
    }
  }

  /** `e` adds a row to the table. */
  predicate Contributes(cal: Calendar, e: Entry)
  {
    Visit(cal, e).Ok? && Visit(cal, e).value.Some?
  }

  /** The positions of the `true` flags, in increasing order. */
  function TrueIndices(flags: seq<bool>): (idx: seq<nat>)
    ensures forall i :: 0 <= i < |idx| ==> idx[i] < |flags|
    ensures forall i, j :: 0 <= i < j < |idx| ==> idx[i] < idx[j]
    ensures forall j :: 0 <= j < |flags| ==> (j in idx <==> flags[j])
  {
    if flags == [] then []
    else
      var init := flags[..|flags| - 1];
      assert forall j :: 0 <= j < |init| ==> init[j] == flags[j];
      TrueIndices(init) + (if flags[|flags| - 1] then [|flags| - 1] else [])
  }

  /** For each entry, whether it contributes a row. */
  function ContributorFlags(cal: Calendar, entries: seq<Entry>): (flags: seq<bool>)
    ensures |flags| == |entries|
    ensures forall j :: 0 <= j < |entries| ==> flags[j] == Contributes(cal, entries[j])
  {
    seq(|entries|, j requires 0 <= j < |entries| => Contributes(cal, entries[j]))
  }

  /** The positions of the entries that contribute a row: in increasing
      order, and exactly the contributing ones. */
  function ContributorIndices(cal: Calendar, entries: seq<Entry>): (idx: seq<nat>)
    ensures forall i :: 0 <= i < |idx| ==> idx[i] < |entries|
    ensures forall i, j :: 0 <= i < j < |idx| ==> idx[i] < idx[j]
    ensures forall j :: 0 <= j < |entries| ==> (j in idx <==> Contributes(cal, entries[j]))
  {
    TrueIndices(ContributorFlags(cal, entries))
  }

  /** Appending an entry appends its position when it contributes. */
  lemma ContributorIndicesAppend(cal: Calendar, entries: seq<Entry>)
    requires entries != []
    ensures ContributorIndices(cal, entries) ==
      ContributorIndices(cal, entries[..|entries| - 1])
      + (if Contributes(cal, entries[|entries| - 1]) then [|entries| - 1] else [])
  {
    var flags := ContributorFlags(cal, entries);
    assert flags[..|flags| - 1] == ContributorFlags(cal, entries[..|entries| - 1]);
  }

  /** When the walk does not raise, no entry raised and there is one row
      per contributing entry. */
  lemma {:induction false} WalkLength(cal: Calendar, entries: seq<Entry>, rows: seq<Row>)
    requires Walk(cal, entries) == Ok(rows)
    ensures forall j :: 0 <= j < |entries| ==> Visit(cal, entries[j]).Ok?
    ensures |rows| == |ContributorIndices(cal, entries)| <= |entries|
  {
    if entries != [] {
      var init := entries[..|entries| - 1];
      WalkLength(cal, init, Walk(cal, init).value);
      ContributorIndicesAppend(cal, entries);
      assert forall j :: 0 <= j < |init| ==> init[j] == entries[j];
    }
  }

  /** When the walk does not raise, its `i`-th row is what the `i`-th
      contributing entry contributes: the rows follow the order of the list,
      and each contributing entry gives exactly one. */
  lemma {:induction false} WalkOrder(cal: Calendar, entries: seq<Entry>, rows: seq<Row>, i: nat)
    requires Walk(cal, entries) == Ok(rows) && i < |rows|
    ensures i < |ContributorIndices(cal, entries)|
    ensures Visit(cal, entries[ContributorIndices(cal, entries)[i]]) == Ok(Some(rows[i]))
  {
    var init := entries[..|entries| - 1];
    var prev := Walk(cal, init).value;
    var idx := ContributorIndices(cal, entries);
    var before := ContributorIndices(cal, init);
    WalkLength(cal, init, prev);
    WalkLength(cal, entries, rows);
    ContributorIndicesAppend(cal, entries);
    if i < |prev| {
      WalkOrder(cal, init, prev, i);
      assert idx[i] == before[i];
      assert init[before[i]] == entries[before[i]];
      assert rows[i] == prev[i];
    } else {
      assert Visit(cal, entries[|entries| - 1]) == Ok(Some(rows[i]));
      assert idx[i] == |entries| - 1;
    }
  }

  /** Processing one conversation raises TypeError exactly when its
      truthy creation time is a string of digits with several dots, and
      IndexError exactly when it parses but an assistant message with an
      empty `parts` list beats the latest reply so far. */
  lemma VisitRaises(cal: Calendar, e: Entry)
    ensures Visit(cal, e) == Raise(TypeError) <==>
      e.Record? && Truthy(e.conv.createTime) && ParseTimestamp(cal, e.conv.createTime).Raise?
    ensures Visit(cal, e) == Raise(IndexError) <==>
      && e.Record? && Truthy(e.conv.createTime)
      && ParseTimestamp(cal, e.conv.createTime).Ok? && ParseTimestamp(cal, e.conv.createTime).value.Some?
      && HitsEmptyParts(Nodes(e))
    ensures Visit(cal, e).Raise? ==> Visit(cal, e).exc in {TypeError, IndexError}
  {
    if e.Record? && Truthy(e.conv.createTime) {
      var p := ParseTimestamp(cal, e.conv.createTime);
      if p.Ok? && p.value.Some? {
        LastReplySelectsLatest(e);
      }
    }
  }

  /** The walk raises exactly when some entry raises, and then it raises
      what the first such entry raises. */
  lemma {:induction false} WalkRaises(cal: Calendar, entries: seq<Entry>)
    ensures Walk(cal, entries).Raise? <==> exists j :: 0 <= j < |entries| && Visit(cal, entries[j]).Raise?
    ensures Walk(cal, entries).Raise? ==>
      exists j :: && 0 <= j < |entries| && Visit(cal, entries[j]) == Raise(Walk(cal, entries).exc)
                  && forall m :: 0 <= m < j ==> Visit(cal, entries[m]).Ok?
  {
    if entries != [] {
      var init := entries[..|entries| - 1];
      var n := |entries| - 1;
      WalkRaises(cal, init);
      assert forall m :: 0 <= m < |init| ==> init[m] == entries[m];
      if Walk(cal, init).Ok? {
        WalkLength(cal, init, Walk(cal, init).value);
        if Visit(cal, entries[n]).Raise? {
          assert Visit(cal, entries[n]) == Raise(Walk(cal, entries).exc);
        }
      }
    }
  }

  /** What the aggregation returns once the walk has not raised: with no
      contributing conversation it raises "No valid conversations"; with
      creation times of two kinds the sort raises TypeError; otherwise the
      total is the sum of the tally and of the table's message counts, the
      tally holds exactly the dates of the contributing conversations with
      the sum of their counts, and the table is the appended summaries
      reordered newest first, stably. */
  lemma AggregateResult(cal: Calendar, entries: seq<Entry>, rows: seq<Row>)
    requires Walk(cal, entries) == Ok(rows)
    ensures rows == [] <==> Aggregate(cal, List(entries)) == Raise(ValueError(NoValidConversations))
    ensures rows != [] && !Sortable(Summaries(rows)) ==> Aggregate(cal, List(entries)) == Raise(TypeError)
    ensures Aggregate(cal, List(entries)).Ok? <==> rows != [] && Sortable(Summaries(rows))
    ensures Aggregate(cal, List(entries)).Ok? ==>
      var st := Aggregate(cal, List(entries)).value;
      && st.totalMessages == Total(st.dailyStats)
      && st.totalMessages == SumCounts(Summaries(rows))
      && st.totalMessages == SumCounts(st.conversations)
      && (forall d :: d in st.dailyStats.count <==> exists i :: 0 <= i < |rows| && rows[i].date == d)
      && (forall d :: d in st.dailyStats.count ==> st.dailyStats.count[d] == CountOn(rows, d))
      && NewestFirst(st.conversations)
      && multiset(st.conversations) == multiset(Summaries(rows))
      && (forall k :: WithKey(st.conversations, k) == WithKey(Summaries(rows), k))
  {
    var table := Summaries(rows);
    if rows != [] {
      var last := rows[|rows| - 1];
      assert last.date in Histogram(rows).count;
    }
    if Aggregate(cal, List(entries)).Ok? {
      assert Aggregate(cal, List(entries)).value == Stats(Total(Histogram(rows)), Histogram(rows), SortNewestFirst(table));
      HistogramTotal(rows);
      HistogramExact(rows);
      SortedTable(table);
    }
  }

  /** The per-day dict, for every date at once. */
  lemma HistogramExact(rows: seq<Row>)
    ensures forall d :: d in Histogram(rows).count <==> exists i :: 0 <= i < |rows| && rows[i].date == d
    ensures forall d :: d in Histogram(rows).count ==> Histogram(rows).count[d] == CountOn(rows, d)
  {
    forall d | true
      ensures d in Histogram(rows).count <==> exists i :: 0 <= i < |rows| && rows[i].date == d
      ensures d in Histogram(rows).count ==> Histogram(rows).count[d] == CountOn(rows, d)
    {
      HistogramCounts(rows, d);
    }
  }

  /** The sorted table: newest first, a stable permutation, with the same
      sum of message counts. */
  lemma SortedTable(table: seq<Summary>)
    ensures NewestFirst(SortNewestFirst(table))
    ensures multiset(SortNewestFirst(table)) == multiset(table)
    ensures forall k :: WithKey(SortNewestFirst(table), k) == WithKey(table, k)
    ensures SumCounts(SortNewestFirst(table)) == SumCounts(table)
  {
    SortIsOrdered(table);
    forall k | true
      ensures WithKey(SortNewestFirst(table), k) == WithKey(table, k)
    {
      SortIsStable(table, k);
    }
    SumCountsPermutation(SortNewestFirst(table), table);
  }

}
