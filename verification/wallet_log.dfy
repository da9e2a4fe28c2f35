/** The found-wallets log (`found_wallets.txt`): the record writers
    (`save_findings`, in a guarded and an unguarded variant) and the three
    readers that split the file back into records (the web history page and
    the two desktop history loaders). File contents are plain strings; the
    timestamp the writers take from the clock is a parameter. */
module WalletLog {
  import opened PyStr
  import opened Dicts

  const Marker: string := "=== WALLET FOUND:"
  const SeedLabel: string := "Seed phrase:"
  const AddressLabel: string := "Address:"
  const BalanceLabel: string := "Balance:"

  // ---------------------------------------------------------------------
  // Writing

  /** The text produced by writing each line followed by a newline. */
  function Lines(ls: seq<string>): string
    decreases |ls|
  {
    if |ls| == 0 then [] else ls[0] + "\n" + Lines(ls[1..])
  }

  function HeaderLine(ts: string): string { Marker + " " + ts + " ===" }
  function SeedLine(m: string): string { SeedLabel + " " + m }
  function AddressLine(n: string, a: string): string { n + " " + AddressLabel + " " + a }
  function BalanceLine(n: string, b: string): string { n + " " + BalanceLabel + " " + b }

  /** The address networks that have a balance, in address order, each with
      its address. */
  function Kept(addrs: Dict, bals: Dict): (r: Dict)
    ensures forall i :: 0 <= i < |r| ==> r[i] in addrs && r[i].0 in Keys(bals)
    ensures forall i :: 0 <= i < |addrs| && addrs[i].0 in Keys(bals) ==> addrs[i] in r
    ensures Sublist(r, addrs)
    decreases |addrs|
  {
    if |addrs| == 0 then []
    else
      var rest := Kept(addrs[1..], bals);
      assert forall i :: 1 <= i < |addrs| ==> addrs[i] == addrs[1..][i - 1];
      if addrs[0].0 in Keys(bals) then
        assert ([addrs[0]] + rest)[1..] == rest;
        [addrs[0]] + rest
      else rest
  }

  /** When every address network has a balance, nothing is dropped. */
  lemma {:induction false} KeptAll(addrs: Dict, bals: Dict)
    requires forall i :: 0 <= i < |addrs| ==> addrs[i].0 in Keys(bals)
    ensures Kept(addrs, bals) == addrs
    decreases |addrs|
  {
    if |addrs| > 0 {
      assert forall i :: 0 <= i < |addrs| - 1 ==> addrs[1..][i] == addrs[i + 1];
      KeptAll(addrs[1..], bals);
      assert [addrs[0]] + addrs[1..] == addrs;
    }
  }

  /** The balances of the networks `Kept` keeps, in the same order. */
  function KeptBalances(addrs: Dict, bals: Dict): (r: Dict)
    ensures Keys(r) == Keys(Kept(addrs, bals))
    ensures forall i :: 0 <= i < |r| ==> Get(bals, r[i].0) == Some(r[i].1)
    decreases |addrs|
  {
    if |addrs| == 0 then []
    else match Get(bals, addrs[0].0)
      case Some(b) =>
        var rest := KeptBalances(addrs[1..], bals);
        assert Keys([(addrs[0].0, b)] + rest) == [addrs[0].0] + Keys(rest);
        assert Keys([addrs[0]] + Kept(addrs[1..], bals)) == [addrs[0].0] + Keys(Kept(addrs[1..], bals));
        [(addrs[0].0, b)] + rest
      case None => KeptBalances(addrs[1..], bals)
  }

  /** The address/balance line pairs of the guarded writer: one pair per
      address network that also has a balance, in address order. */
  function EntryLines(addrs: Dict, bals: Dict): (ls: seq<string>)
    ensures |ls| == 2 * |Kept(addrs, bals)|
    decreases |addrs|
  {
    if |addrs| == 0 then []
    else
      var n := addrs[0].0;
      match Get(bals, n)
      case Some(b) => [AddressLine(n, addrs[0].1), BalanceLine(n, b)] + EntryLines(addrs[1..], bals)
      case None => EntryLines(addrs[1..], bals)
  }

  /** The lines of one record written by the guarded `save_findings` of the
      desktop applications: header, seed phrase, the entry pairs and a blank
      line. */
  function RecordLines(ts: string, m: string, addrs: Dict, bals: Dict): seq<string> {
    [HeaderLine(ts), SeedLine(m)] + EntryLines(addrs, bals) + [""]
  }

  /** Guarded `save_findings`: the text appended to the log. */
  function SaveFindings(ts: string, m: string, addrs: Dict, bals: Dict): string {
    Lines(RecordLines(ts, m, addrs, bals))
  }

  /** The layout of a record: the header, the seed line, then for the `i`-th
      kept network its address line followed by its balance line, and a
      closing blank line. */
  lemma RecordLayout(ts: string, m: string, addrs: Dict, bals: Dict)
    ensures var ls := RecordLines(ts, m, addrs, bals);
      && |ls| == 3 + 2 * |Kept(addrs, bals)|
      && ls[0] == HeaderLine(ts) && ls[1] == SeedLine(m) && ls[|ls| - 1] == ""
      && forall i :: 0 <= i < |Kept(addrs, bals)| ==>
           && ls[2 + 2 * i] == AddressLine(Kept(addrs, bals)[i].0, Kept(addrs, bals)[i].1)
           && ls[3 + 2 * i] == BalanceLine(KeptBalances(addrs, bals)[i].0, KeptBalances(addrs, bals)[i].1)
  {
    EntryLinesLayout(addrs, bals);
    Framed(HeaderLine(ts), SeedLine(m), EntryLines(addrs, bals));
  }

  lemma Framed(h: string, sd: string, e: seq<string>)
    ensures var ls := [h, sd] + e + [""];
      && |ls| == |e| + 3 && ls[0] == h && ls[1] == sd && ls[|ls| - 1] == ""
      && forall j :: 0 <= j < |e| ==> ls[2 + j] == e[j]
  {
  }

  lemma {:induction false} EntryLinesLayout(addrs: Dict, bals: Dict)
    ensures var e := EntryLines(addrs, bals);
      forall i :: 0 <= i < |Kept(addrs, bals)| ==>
        && e[2 * i] == AddressLine(Kept(addrs, bals)[i].0, Kept(addrs, bals)[i].1)
        && e[2 * i + 1] == BalanceLine(KeptBalances(addrs, bals)[i].0, KeptBalances(addrs, bals)[i].1)
    decreases |addrs|
  {
    if |addrs| > 0 {
      var n := addrs[0].0;
      EntryLinesLayout(addrs[1..], bals);
      match Get(bals, n)
      case Some(b) =>
        PairsCons(addrs[0], b, EntryLines(addrs[1..], bals), Kept(addrs[1..], bals), KeptBalances(addrs[1..], bals));
      case None =>
    }
  }

  /** One more kept network in front adds its two lines in front. */
  lemma PairsCons(x: (string, string), b: string, rest: seq<string>, k: Dict, kb: Dict)
    requires |rest| == 2 * |k| && |kb| == |k|
    requires forall i :: 0 <= i < |k| ==>
      && rest[2 * i] == AddressLine(k[i].0, k[i].1)
      && rest[2 * i + 1] == BalanceLine(kb[i].0, kb[i].1)
    ensures var e, k', kb' := [AddressLine(x.0, x.1), BalanceLine(x.0, b)] + rest, [x] + k, [(x.0, b)] + kb;
      forall i :: 0 <= i < |k'| ==>
        && e[2 * i] == AddressLine(k'[i].0, k'[i].1)
        && e[2 * i + 1] == BalanceLine(kb'[i].0, kb'[i].1)
  {
    var e, k', kb' := [AddressLine(x.0, x.1), BalanceLine(x.0, b)] + rest, [x] + k, [(x.0, b)] + kb;
    forall i | 1 <= i < |k'|
      ensures e[2 * i] == AddressLine(k'[i].0, k'[i].1) && e[2 * i + 1] == BalanceLine(kb'[i].0, kb'[i].1)
    {
      assert e[2 * i] == rest[2 * (i - 1)] && e[2 * i + 1] == rest[2 * (i - 1) + 1];
      assert k'[i] == k[i - 1] && kb'[i] == kb[i - 1];
    }
  }

  /** What the unguarded writer leaves in the file, and the network whose
      missing balance raised a `KeyError`, if any. */
  datatype Written = Written(text: string, keyError: Option<string>)

  /** The entry lines of the unguarded writer: it looks up `balances[network]`
      for every address network and stops at the first one that is missing,
      after its address line has already been written. */
  function UnguardedEntries(addrs: Dict, bals: Dict): (w: Written)
    ensures w.keyError.None? <==> forall i :: 0 <= i < |addrs| ==> addrs[i].0 in Keys(bals)
    ensures w.keyError.None? ==> w.text == Lines(EntryLines(addrs, bals))
    ensures w.keyError.Some? ==> w.keyError.value in Keys(addrs) && w.keyError.value !in Keys(bals)
    decreases |addrs|
  {
    if |addrs| == 0 then Written([], None)
    else
      var n := addrs[0].0;
      match Get(bals, n)
      case None => Written(Lines([AddressLine(n, addrs[0].1)]), Some(n))
      case Some(b) =>
        var rest := UnguardedEntries(addrs[1..], bals);
        assert forall i :: 1 <= i < |addrs| ==> addrs[i] == addrs[1..][i - 1];
        assert rest.keyError.Some? ==> Keys(addrs) == [n] + Keys(addrs[1..]);
        assert rest.keyError.None? ==>
          Lines([AddressLine(n, addrs[0].1), BalanceLine(n, b)] + EntryLines(addrs[1..], bals))
          == Lines([AddressLine(n, addrs[0].1), BalanceLine(n, b)]) + Lines(EntryLines(addrs[1..], bals))
        by { LinesAppend([AddressLine(n, addrs[0].1), BalanceLine(n, b)], EntryLines(addrs[1..], bals)); }
        Written(Lines([AddressLine(n, addrs[0].1), BalanceLine(n, b)]) + rest.text, rest.keyError)
  }

  /** Unguarded `save_findings` (web application, command-line and standalone
      tools): the closing blank line is only written when no lookup failed. */
  function SaveFindingsUnguarded(ts: string, m: string, addrs: Dict, bals: Dict): Written {
    var e := UnguardedEntries(addrs, bals);
    Written(Lines([HeaderLine(ts), SeedLine(m)]) + e.text + (if e.keyError.None? then "\n" else []), e.keyError)
  }

  lemma {:induction false} LinesAppend(a: seq<string>, b: seq<string>)
    ensures Lines(a + b) == Lines(a) + Lines(b)
    decreases |a|
  {
    if |a| > 0 {
      assert (a + b)[1..] == a[1..] + b;
      LinesAppend(a[1..], b);
    } else {
      assert a + b == b;
    }
  }

  /** The balances the scanning loops collect: for each target network that
      has an address, in target order, the looked-up balance
      (`check_balance` is the parameter `lookup`). */
  function CollectBalances(targets: seq<string>, addrs: Dict, lookup: string -> string): Dict
    decreases |targets|
  {
    if |targets| == 0 then []
    else
      var r := CollectBalances(targets[..|targets| - 1], addrs, lookup);
      var t := targets[|targets| - 1];
      if t in Keys(addrs) then Put(r, t, lookup(t)) else r
  }

  /** A network gets a balance exactly when it is a target and has an address. */
  lemma {:induction false} CollectBalancesKeys(targets: seq<string>, addrs: Dict, lookup: string -> string, k: string)
    ensures k in Keys(CollectBalances(targets, addrs, lookup)) <==> k in targets && k in Keys(addrs)
    decreases |targets|
  {
    if |targets| > 0 {
      var init := targets[..|targets| - 1];
      var t := targets[|targets| - 1];
      assert targets == init + [t];
      CollectBalancesKeys(init, addrs, lookup, k);
      var r := CollectBalances(init, addrs, lookup);
      if t in Keys(addrs) {
        assert Keys(Put(r, t, lookup(t))) == Keys(r) || Keys(Put(r, t, lookup(t))) == Keys(r) + [t] by {
          if t !in Keys(r) {
            assert Keys(r + [(t, lookup(t))]) == Keys(r) + [t];
          }
        }
      }
    }
  }

  // ---------------------------------------------------------------------
  // Reading

  datatype Wallet = Wallet(timestamp: string, mnemonic: string, addresses: Dict, balances: Dict)

  /** What reading a file opened in text mode delivers: universal newlines
      turn `\r\n` and a lone `\r` into `\n`. The readers below take the log
      contents as delivered. */
  function TextMode(s: string): (r: string)
    ensures '\r' !in r
    ensures '\r' !in s ==> r == s
    decreases |s|
  {
    if |s| == 0 then []
    else if s[0] == '\r' then "\n" + TextMode(if |s| > 1 && s[1] == '\n' then s[2..] else s[1..])
    else
      assert '\r' !in s ==> '\r' !in s[1..];
      assert s == [s[0]] + s[1..];
      [s[0]] + TextMode(s[1..])
  }


  /** What one line of a record contributes to the address and balance maps. */
  datatype Entry = AddressEntry(network: string, address: string)
                 | BalanceEntry(network: string, balance: string)
                 | NoEntry

  datatype Pair = Pair(key: string, value: string)

  /** `parts = line.split(tag)`, accepted only when `len(parts) == 2`, both
      halves stripped. */
  function LabelledPair(line: string, tag: string): (r: Option<Pair>)
    requires |tag| > 0
    ensures r.Some? <==> |Split(line, tag)| == 2
    ensures !Contains(line, tag) ==> r.None?
    ensures r.Some? ==> IsTrimmed(r.value.key) && IsTrimmed(r.value.value)
  {
    var parts := Split(line, tag);
    assert !Contains(line, tag) ==> parts == [line] by {
      if !Contains(line, tag) { SplitNoSep(line, tag); }
    }
    if |parts| == 2 then Some(Pair(Strip(parts[0]), Strip(parts[1]))) else None
  }

  /** An `Address:` line takes precedence; a `Balance:` line is considered only
      when the line holds no `Address:`. */
  function ClassifyEntry(line: string): (e: Entry)
    ensures e.AddressEntry? <==> LabelledPair(line, AddressLabel).Some?
    ensures e.AddressEntry? ==>
      Pair(e.network, e.address) == LabelledPair(line, AddressLabel).value
    ensures e.BalanceEntry? <==> !Contains(line, AddressLabel) && LabelledPair(line, BalanceLabel).Some?
    ensures e.BalanceEntry? ==>
      Pair(e.network, e.balance) == LabelledPair(line, BalanceLabel).value
  {
    if Contains(line, AddressLabel) then
      match LabelledPair(line, AddressLabel)
      case Some(p) => AddressEntry(p.key, p.value)
      case None => NoEntry
    else if Contains(line, BalanceLabel) then
      match LabelledPair(line, BalanceLabel)
      case Some(p) => BalanceEntry(p.key, p.value)
      case None => NoEntry
    else NoEntry
  }

  /** `wallet['addresses'][network] = address` and likewise for balances: a
      later line for the same network overwrites the earlier value in place. */
  function ApplyEntry(w: Wallet, e: Entry): (r: Wallet)
    ensures r.timestamp == w.timestamp && r.mnemonic == w.mnemonic
  {
    match e
    case AddressEntry(n, a) => w.(addresses := Put(w.addresses, n, a))
    case BalanceEntry(n, b) => w.(balances := Put(w.balances, n, b))
    case NoEntry => w
  }

  /** What one line means to the web history parser. */
  datatype LineKind = SeedKind(mnemonic: string) | EntryKind(entry: Entry)

  /** A line starting with `Seed phrase:` sets the mnemonic to the line with
      every occurrence of the label removed, stripped; any other line is an
      entry candidate. */
  function ClassifyMain(line: string): LineKind {
    if StartsWith(line, SeedLabel) then SeedKind(Strip(ReplaceAll(line, SeedLabel, "")))
    else EntryKind(ClassifyEntry(line))
  }

  function StepMain(w: Wallet, line: string): Wallet {
    match ClassifyMain(line)
    case SeedKind(m) => w.(mnemonic := m)
    case EntryKind(e) => ApplyEntry(w, e)
  }

  function ScanMain(w: Wallet, lines: seq<string>): Wallet
    decreases |lines|
  {
    if |lines| == 0 then w else ScanMain(StepMain(w, lines[0]), lines[1..])
  }

  /** The lines of a block: the stripped block split at newlines. */
  function BlockLines(block: string): (ls: seq<string>)
    ensures |ls| >= 1
  {
    Split(Strip(block), "\n")
  }

  /** The web history parser on one block: the timestamp is the stripped first
      line, every later line is scanned. */
  function ParseBlock(block: string): Wallet {
    var lines := BlockLines(block);
    ScanMain(Wallet(Strip(lines[0]), "", [], []), lines[1..])
  }

  /** A block holding nothing but whitespace yields no record. */
  predicate Blank(block: string) {
    Strip(block) == []
  }

  /** The readers' loop over the blocks of a log: blank blocks are skipped and
      what `read` makes of each other block is appended in order. */
  function Gather<R>(read: string -> seq<R>, blocks: seq<string>): seq<R>
    decreases |blocks|
  {
    if |blocks| == 0 then []
    else (if Blank(blocks[0]) then [] else read(blocks[0])) + Gather(read, blocks[1..])
  }

  /** The records the web history page lists for a log file's contents. */
  function History(content: string): seq<Wallet> {
    Gather(block => [ParseBlock(block)], Split(content, Marker))
  }

  /** The web history page: a missing file is reported as an error and shows
      no records. */
  datatype HistoryPage = HistoryPage(wallets: seq<Wallet>, readError: bool)

  function HistoryView(file: Option<string>): (p: HistoryPage)
    ensures p.readError <==> file.None?
    ensures file.Some? ==> p.wallets == History(file.value)
    ensures file.None? ==> p.wallets == []
  {
    match file
    case None => HistoryPage([], true)
    case Some(c) => HistoryPage(History(c), false)
  }

  // ---------------------------------------------------------------------
  // Desktop history loaders

  /** A row of a found-wallets table: timestamp, network and balance. */
  datatype Row = Row(timestamp: string, network: string, balance: string)

  /** The desktop loaders scan every line, the first one included, and have no
      seed branch. */
  function ScanGui(w: Wallet, lines: seq<string>): Wallet
    decreases |lines|
  {
    if |lines| == 0 then w else ScanGui(ApplyEntry(w, ClassifyEntry(lines[0])), lines[1..])
  }

  /** One row per address network that also has a balance, in address order. */
  function Rows(ts: string, addrs: Dict, bals: Dict): (rows: seq<Row>)
    ensures |rows| == |Kept(addrs, bals)|
    ensures forall i :: 0 <= i < |rows| ==>
      rows[i] == Row(ts, Kept(addrs, bals)[i].0, KeptBalances(addrs, bals)[i].1)
    decreases |addrs|
  {
    if |addrs| == 0 then []
    else
      var rest := Rows(ts, addrs[1..], bals);
      match Get(bals, addrs[0].0)
      case Some(b) =>
        RowsCons(Row(ts, addrs[0].0, b), rest, addrs[0], (addrs[0].0, b),
                 Kept(addrs[1..], bals), KeptBalances(addrs[1..], bals), ts);
        [Row(ts, addrs[0].0, b)] + rest
      case None => rest
  }

  lemma RowsCons(r: Row, rest: seq<Row>, x: (string, string), y: (string, string), k: Dict, kb: Dict, ts: string)
    requires r == Row(ts, x.0, y.1) && |rest| == |k| == |kb|
    requires forall i :: 0 <= i < |rest| ==> rest[i] == Row(ts, k[i].0, kb[i].1)
    ensures forall i :: 0 <= i < |rest| + 1 ==> ([r] + rest)[i] == Row(ts, ([x] + k)[i].0, ([y] + kb)[i].1)
  {
  }

  function GuiBlockRows(block: string): seq<Row> {
    var lines := BlockLines(block);
    var w := ScanGui(Wallet(Strip(lines[0]), "", [], []), lines);
    Rows(w.timestamp, w.addresses, w.balances)
  }

  /** The rows both desktop loaders append to the found-wallets table. */
  function GuiHistory(content: string): seq<Row> {
    Gather(GuiBlockRows, Split(content, Marker))
  }

  /** A missing log file leaves the table as it is. */
  function LoadHistory(table: seq<Row>, file: Option<string>): (r: seq<Row>)
    ensures file.None? ==> r == table
    ensures file.Some? ==> r == table + GuiHistory(file.value)
  {
    match file
    case None => table
    case Some(c) => table + GuiHistory(c)
  }
}
