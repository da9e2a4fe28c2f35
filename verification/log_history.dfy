/** Whole logs: the writer only ever appends, so a log is the concatenation
    of its records, and each reader returns the records of a log in the order
    they were written. */
module LogHistory {
  import opened PyStr
  import opened Dicts
  import opened WalletLog
  import opened LogLines
  import opened LogRoundTrip
  import opened GuiController

  // ---------------------------------------------------------------------
  // Appending

  lemma SplitAfterMarker(c: string, rest: string)
    ensures Split(c + Marker + rest, Marker) == Split(c, Marker) + Split(rest, Marker)
    ensures Split(Marker + rest, Marker) == [[]] + Split(rest, Marker)
  {
    Separators();
    SplitConcat(c, Marker, rest);
    assert [] + Marker + rest == Marker + rest;
    SplitConcat([], Marker, rest);
    SplitNoSep([], Marker);
  }

  /** An empty block yields nothing. */
  lemma GatherSkipEmpty<R>(read: string -> seq<R>, xs: seq<string>)
    ensures Gather(read, [[]] + xs) == Gather(read, xs)
  {
    assert Blank([]);
    assert ([[]] + xs)[1..] == xs;
  }

  /** Text after a marker never merges with the blocks before it. */
  lemma GatherAfterMarker<R>(read: string -> seq<R>, c: string, rest: string)
    ensures Gather(read, Split(c + Marker + rest, Marker))
      == Gather(read, Split(c, Marker)) + Gather(read, Split(Marker + rest, Marker))
  {
    SplitAfterMarker(c, rest);
    GatherAppend(read, Split(c, Marker), Split(rest, Marker));
    GatherSkipEmpty(read, Split(rest, Marker));
  }

  /** The blocks a reader does not skip, in file order. */
  function NonBlank(blocks: seq<string>): (r: seq<string>)
    ensures forall i :: 0 <= i < |r| ==> !Blank(r[i])
    decreases |blocks|
  {
    if |blocks| == 0 then []
    else (if Blank(blocks[0]) then [] else [blocks[0]]) + NonBlank(blocks[1..])
  }

  /** A reader that makes one item of every block it reads gives one item
      per block that is not blank, in the order of the blocks. */
  lemma {:induction false} GatherSingles<R>(read: string -> seq<R>, blocks: seq<string>)
    requires forall b :: |read(b)| == 1
    ensures |Gather(read, blocks)| == |NonBlank(blocks)|
    ensures forall i :: 0 <= i < |Gather(read, blocks)| ==> Gather(read, blocks)[i] == read(NonBlank(blocks)[i])[0]
    decreases |blocks|
  {
    if |blocks| > 0 {
      var g := Gather(read, blocks[1..]);
      var nb := NonBlank(blocks[1..]);
      GatherSingles(read, blocks[1..]);
      if Blank(blocks[0]) {
        assert Gather(read, blocks) == g && NonBlank(blocks) == nb;
      } else {
        var x := read(blocks[0])[0];
        assert read(blocks[0]) == [x];
        assert Gather(read, blocks) == [x] + g && NonBlank(blocks) == [blocks[0]] + nb;
        SinglesCons(read, x, blocks[0], g, nb);
      }
    }
  }

  lemma SinglesCons<R>(read: string -> seq<R>, x: R, b: string, g: seq<R>, nb: seq<string>)
    requires forall c :: |read(c)| == 1
    requires read(b) == [x]
    requires |g| == |nb| && forall i :: 0 <= i < |g| ==> g[i] == read(nb[i])[0]
    ensures forall i :: 0 <= i < |g| + 1 ==> ([x] + g)[i] == read(([b] + nb)[i])[0]
  {
    assert forall i :: 1 <= i <= |g| ==> ([x] + g)[i] == g[i - 1] && ([b] + nb)[i] == nb[i - 1];
  }

  /** The web history page lists one record per marker-separated block of the
      log that is not blank, in file order. */
  lemma HistoryRecords(content: string)
    ensures |History(content)| == |NonBlank(Split(content, Marker))|
    ensures forall i :: 0 <= i < |History(content)| ==> History(content)[i] == ParseBlock(NonBlank(Split(content, Marker))[i])
  {
    GatherSingles(block => [ParseBlock(block)], Split(content, Marker));
  }

  /** An empty log lists nothing. */
  lemma EmptyHistory()
    ensures History([]) == [] && GuiHistory([]) == []
  {
    SplitNoSep([], Marker);
    var none: seq<string> := [];
    assert [[]] + none == [[]];
    GatherSkipEmpty(block => [ParseBlock(block)], none);
    GatherSkipEmpty(GuiBlockRows, none);
  }

  /** Appending text that starts a new record to a log adds that text's
      records after the existing ones, on the web history page... */
  lemma HistoryAppend(c: string, rest: string)
    ensures History(c + Marker + rest) == History(c) + History(Marker + rest)
  {
    GatherAfterMarker(block => [ParseBlock(block)], c, rest);
  }

  /** ...and in the desktop loaders. */
  lemma GuiHistoryAppend(c: string, rest: string)
    ensures GuiHistory(c + Marker + rest) == GuiHistory(c) + GuiHistory(Marker + rest)
  {
    GatherAfterMarker(GuiBlockRows, c, rest);
  }

  // ---------------------------------------------------------------------
  // Records

  /** A record the guarded writer can write and both readers can read back:
      a `Wallet` whose fields the format carries. */
  predicate Writable(w: Wallet) {
    && CleanStamp(w.timestamp) && CleanMnemonic(w.mnemonic)
    && DistinctKeys(w.addresses) && CleanEntries(w.addresses, w.balances)
  }

  /** Writable, and readable by the desktop loaders as well. */
  predicate GuiWritable(w: Wallet) {
    && CleanValue(w.timestamp) && CleanValue(w.mnemonic)
    && DistinctKeys(w.addresses) && CleanEntries(w.addresses, w.balances)
  }

  function Saved(w: Wallet): string {
    SaveFindings(w.timestamp, w.mnemonic, w.addresses, w.balances)
  }

  /** The wallet the web history page lists for a saved record. */
  function Reread(w: Wallet): (r: Wallet)
    ensures r.mnemonic == w.mnemonic
    ensures r.timestamp == Stamp(w.timestamp)
  {
    Recovered(w.timestamp, w.mnemonic, w.addresses, w.balances)
  }

  /** The log after the guarded writer has appended `records` in order to an
      empty file. */
  function Log(records: seq<Wallet>): string
    decreases |records|
  {
    if |records| == 0 then []
    else Log(records[..|records| - 1]) + Saved(records[|records| - 1])
  }

  /** A log written record by record from clean values reads back, in text
      mode, as exactly the text that was written. */
  lemma {:induction false} LogReadAsWritten(records: seq<Wallet>)
    requires forall i :: 0 <= i < |records| ==> Writable(records[i])
    ensures '\r' !in Log(records)
    ensures TextMode(Log(records)) == Log(records)
    decreases |records|
  {
    if |records| > 0 {
      var init := records[..|records| - 1];
      var last := records[|records| - 1];
      assert forall i :: 0 <= i < |init| ==> init[i] == records[i];
      LogReadAsWritten(init);
      ReadAsWritten(last.timestamp, last.mnemonic, last.addresses, last.balances);
    }
  }

  /** Appending one record to any log adds exactly that record, at the end,
      to what the web history page lists. */
  lemma AppendRecord(content: string, w: Wallet)
    requires Writable(w)
    ensures History(content + Saved(w)) == History(content) + [Reread(w)]
  {
    SaveFindingsText(w.timestamp, w.mnemonic, w.addresses, w.balances);
    var body := BodyText(w.timestamp, Tail(w.mnemonic, w.addresses, w.balances));
    assert content + Saved(w) == content + Marker + body;
    HistoryAppend(content, body);
    RecordRoundTrip(w.timestamp, w.mnemonic, w.addresses, w.balances);
  }

  lemma ListedInOrder(hs: seq<Wallet>, hi: seq<Wallet>, records: seq<Wallet>)
    requires |records| > 0 && hs == hi + [Reread(records[|records| - 1])]
    requires |hi| == |records| - 1 && forall i :: 0 <= i < |hi| ==> hi[i] == Reread(records[i])
    ensures |hs| == |records| && forall i :: 0 <= i < |records| ==> hs[i] == Reread(records[i])
  {
  }

  /** The web history page lists the records of a log in the order they were
      written. */
  lemma {:induction false} HistoryOfLog(records: seq<Wallet>)
    requires forall i :: 0 <= i < |records| ==> Writable(records[i])
    ensures |History(Log(records))| == |records|
    ensures forall i :: 0 <= i < |records| ==> History(Log(records))[i] == Reread(records[i])
    decreases |records|
  {
    if |records| == 0 {
      EmptyHistory();
    } else {
      var init := records[..|records| - 1];
      var last := records[|records| - 1];
      assert forall i :: 0 <= i < |init| ==> init[i] == records[i];
      HistoryOfLog(init);
      assert History(Log(records)) == History(Log(init)) + [Reread(last)] by {
        assert Log(records) == Log(init) + Saved(last);
        AppendRecord(Log(init), last);
      }
      ListedInOrder(History(Log(records)), History(Log(init)), records);
    }
  }

  // ---------------------------------------------------------------------
  // Desktop rows

  lemma {:induction false} RowsSameGets(ts: string, a: Dict, b1: Dict, b2: Dict)
    requires forall i :: 0 <= i < |a| ==> Get(b1, a[i].0) == Get(b2, a[i].0)
    ensures Rows(ts, a, b1) == Rows(ts, a, b2)
    decreases |a|
  {
    if |a| > 0 {
      assert forall i :: 0 <= i < |a| - 1 ==> a[1..][i] == a[i + 1];
      RowsSameGets(ts, a[1..], b1, b2);
    }
  }

  /** Dropping the networks without a balance does not change the rows. */
  lemma {:induction false} RowsOfKept(ts: string, addrs: Dict, bals: Dict)
    ensures Rows(ts, Kept(addrs, bals), bals) == Rows(ts, addrs, bals)
    decreases |addrs|
  {
    if |addrs| > 0 {
      RowsOfKept(ts, addrs[1..], bals);
      if addrs[0].0 in Keys(bals) {
        var k := [addrs[0]] + Kept(addrs[1..], bals);
        assert k[0] == addrs[0] && k[1..] == Kept(addrs[1..], bals);
      }
    }
  }

  lemma {:induction false} KeptDistinct(addrs: Dict, bals: Dict)
    requires DistinctKeys(addrs)
    ensures DistinctKeys(Kept(addrs, bals))
    decreases |addrs|
  {
    if |addrs| > 0 {
      assert DistinctKeys(addrs[1..]) by {
        assert forall j :: 0 <= j < |addrs| - 1 ==> addrs[1..][j] == addrs[j + 1];
      }
      KeptDistinct(addrs[1..], bals);
      var rest := Kept(addrs[1..], bals);
      forall j | 0 <= j < |rest| ensures rest[j].0 != addrs[0].0 {
        assert rest[j] in addrs[1..];
        var k :| 0 <= k < |addrs| - 1 && addrs[1..][k] == rest[j];
        assert addrs[k + 1] == rest[j];
      }
    }
  }

  /** The kept balances answer every kept network as the balances do. */
  lemma KeptGets(addrs: Dict, bals: Dict)
    requires DistinctKeys(addrs)
    ensures forall i :: 0 <= i < |Kept(addrs, bals)| ==>
      Get(KeptBalances(addrs, bals), Kept(addrs, bals)[i].0) == Get(bals, Kept(addrs, bals)[i].0)
  {
    var k := Kept(addrs, bals);
    var kb := KeptBalances(addrs, bals);
    KeptDistinct(addrs, bals);
    assert forall i :: 0 <= i < |kb| ==> kb[i].0 == Keys(kb)[i] == Keys(k)[i] == k[i].0;
    assert DistinctKeys(kb);
    forall i | 0 <= i < |k| ensures Get(kb, k[i].0) == Get(bals, k[i].0) {
      GetAt(kb, i);
    }
  }

  /** Dropping the networks without a balance, and keeping only their
      balances, does not change the rows. */
  lemma RowsKept(ts: string, addrs: Dict, bals: Dict)
    requires DistinctKeys(addrs)
    ensures Rows(ts, Kept(addrs, bals), KeptBalances(addrs, bals)) == Rows(ts, addrs, bals)
  {
    KeptGets(addrs, bals);
    RowsSameGets(ts, Kept(addrs, bals), KeptBalances(addrs, bals), bals);
    RowsOfKept(ts, addrs, bals);
  }

  /** Appending one record to any log adds, in the desktop loaders, one row
      per network that has both an address and a balance, time-stamped with
      the recovered timestamp, after the rows already there. */
  lemma GuiAppendRecord(content: string, w: Wallet)
    requires GuiWritable(w)
    ensures GuiHistory(content + Saved(w)) == GuiHistory(content) + Rows(Stamp(w.timestamp), w.addresses, w.balances)
  {
    SaveFindingsText(w.timestamp, w.mnemonic, w.addresses, w.balances);
    var body := BodyText(w.timestamp, Tail(w.mnemonic, w.addresses, w.balances));
    assert content + Saved(w) == content + Marker + body;
    GuiHistoryAppend(content, body);
    GuiRecordRoundTrip(w.timestamp, w.mnemonic, w.addresses, w.balances);
    RowsKept(Stamp(w.timestamp), w.addresses, w.balances);
  }

  /** The rows of a log's records, in the order they were written. */
  function LoggedRows(records: seq<Wallet>): seq<Row>
    decreases |records|
  {
    if |records| == 0 then []
    else
      var w := records[|records| - 1];
      LoggedRows(records[..|records| - 1]) + Rows(Stamp(w.timestamp), w.addresses, w.balances)
  }

  /** The desktop loaders read a log back as the rows of its records, record
      by record in the order they were written. */
  lemma {:induction false} GuiHistoryOfLog(records: seq<Wallet>)
    requires forall i :: 0 <= i < |records| ==> GuiWritable(records[i])
    ensures GuiHistory(Log(records)) == LoggedRows(records)
    decreases |records|
  {
    if |records| == 0 {
      EmptyHistory();
    } else {
      var init := records[..|records| - 1];
      var last := records[|records| - 1];
      assert forall i :: 0 <= i < |init| ==> init[i] == records[i];
      GuiHistoryOfLog(init);
      assert Log(records) == Log(init) + Saved(last);
      GuiAppendRecord(Log(init), last);
    }
  }

  /** A desktop loader appends to its table the rows of every record of a
      log, in the order they were written, and leaves the table alone when
      there is no log. */
  lemma LoadHistoryOfLog(table: seq<Row>, records: seq<Wallet>)
    requires forall i :: 0 <= i < |records| ==> GuiWritable(records[i])
    ensures LoadHistory(table, Some(Log(records))) == table + LoggedRows(records)
    ensures LoadHistory(table, None) == table
  {
    GuiHistoryOfLog(records);
  }

  /** The web history page of a log written record by record shows no error
      and lists each record as it reads back, in the order written. */
  lemma HistoryViewOfLog(records: seq<Wallet>)
    requires forall i :: 0 <= i < |records| ==> Writable(records[i])
    ensures !HistoryView(Some(Log(records))).readError
    ensures |HistoryView(Some(Log(records))).wallets| == |records|
    ensures forall i :: 0 <= i < |records| ==> HistoryView(Some(Log(records))).wallets[i] == Reread(records[i])
    ensures HistoryView(None).readError && HistoryView(None).wallets == []
  {
    HistoryOfLog(records);
  }

  /** What the Qt window shows when the worker reports a found wallet,
      against what its loader shows for the same record later: the same
      networks in the same order, the clock time of the report instead of the
      recovered timestamp, and each balance as `format_balance` shows the raw
      value the log holds. The Tk window inserts each row at the top, so its
      new rows are the same rows in reverse order. */
  lemma ShownThenReloaded(win: Window, now: string, fmt: (string, string) -> string,
                          ts: string, m: string, addrs: Dict, bals: Dict)
    requires GuiWritable(Wallet(ts, m, addrs, bals))
    ensures var msg := FoundMessage(now, addrs, Formatted(fmt, bals));
      var shown := QtUpdate(win, msg).found[|win.found|..];
      var back := GuiHistory(SaveFindings(ts, m, addrs, bals));
      && |shown| == |back|
      && (forall i :: 0 <= i < |back| ==>
           && back[i].timestamp == Stamp(ts)
           && shown[i] == Row(now, back[i].network, fmt(back[i].network, back[i].balance)))
      && TkUpdate(win, msg).found == Reverse(shown) + win.found
  {
    GuiRecordRoundTrip(ts, m, addrs, bals);
    RowsKept(Stamp(ts), addrs, bals);
    var rows := Rows(now, addrs, Formatted(fmt, bals));
    assert (win.found + rows)[|win.found|..] == rows;
    UpdatesAgree(win, FoundMessage(now, addrs, Formatted(fmt, bals)));
    RowsFormatted(now, Stamp(ts), fmt, addrs, bals);
  }

  /** `shown` are the rows `raw` with another time and each balance formatted. */
  predicate FormattedRows(shown: seq<Row>, raw: seq<Row>, now: string, fmt: (string, string) -> string) {
    && |shown| == |raw|
    && forall i :: 0 <= i < |raw| ==>
         shown[i] == Row(now, raw[i].network, fmt(raw[i].network, raw[i].balance))
  }

  lemma FormattedRowsCons(shown: seq<Row>, raw: seq<Row>, now: string, fmt: (string, string) -> string,
                          ts: string, n: string, b: string)
    requires FormattedRows(shown, raw, now, fmt)
    ensures FormattedRows([Row(now, n, fmt(n, b))] + shown, [Row(ts, n, b)] + raw, now, fmt)
  {
    var s2 := [Row(now, n, fmt(n, b))] + shown;
    var r2 := [Row(ts, n, b)] + raw;
    assert forall i :: 1 <= i < |r2| ==> s2[i] == shown[i - 1] && r2[i] == raw[i - 1];
  }

  /** The rows of formatted balances are the rows of the raw balances, with
      each balance formatted and another time. */
  lemma {:induction false} RowsFormatted(now: string, ts: string, fmt: (string, string) -> string,
                                         addrs: Dict, bals: Dict)
    ensures FormattedRows(Rows(now, addrs, Formatted(fmt, bals)), Rows(ts, addrs, bals), now, fmt)
    decreases |addrs|
  {
    if |addrs| > 0 {
      RowsFormatted(now, ts, fmt, addrs[1..], bals);
      var fb := Formatted(fmt, bals);
      var n := addrs[0].0;
      match Get(bals, n)
      case Some(b) =>
        assert Get(fb, n) == Some(fmt(n, b));
        FormattedRowsCons(Rows(now, addrs[1..], fb), Rows(ts, addrs[1..], bals), now, fmt, ts, n, b);
      case None =>
        assert Get(fb, n).None?;
    }
  }
}
