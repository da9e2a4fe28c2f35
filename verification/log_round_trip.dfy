/** Reading back what the guarded writer appends: every record comes back as
    exactly one entry of the history, with its timestamp (plus the closing
    ` ===`), its mnemonic, and the address and balance of every network that
    had both. */
module LogRoundTrip {
  import opened PyStr
  import opened Dicts
  import opened WalletLog
  import opened LogLines

  /** Every address network and address, and the balance of every network
      that has one, is a value the format can carry. */
  predicate CleanEntries(addrs: Dict, bals: Dict)
    decreases |addrs|
  {
    |addrs| == 0 ||
    (&& CleanNetwork(addrs[0].0) && CleanValue(addrs[0].1)
     && (Get(bals, addrs[0].0).Some? ==> CleanValue(Get(bals, addrs[0].0).value))
     && CleanEntries(addrs[1..], bals))
  }

  // ---------------------------------------------------------------------
  // Lines and joins

  lemma {:induction false} LinesJoin(ls: seq<string>)
    requires |ls| >= 1
    ensures Lines(ls) == Join(ls, "\n") + "\n"
    decreases |ls|
  {
    if |ls| > 1 {
      LinesJoin(ls[1..]);
    }
  }

  lemma {:induction false} JoinSnoc(ls: seq<string>, x: string, sep: string)
    requires |ls| >= 1
    ensures Join(ls + [x], sep) == Join(ls, sep) + sep + x
    decreases |ls|
  {
    if |ls| > 1 {
      assert (ls + [x])[1..] == ls[1..] + [x];
      JoinSnoc(ls[1..], x, sep);
    } else {
      assert ls + [x] == [ls[0], x];
      assert [ls[0], x][1..] == [x];
    }
  }

  lemma {:induction false} LinesNoMarker(ls: seq<string>)
    requires forall i :: 0 <= i < |ls| ==> BodyLine(ls[i])
    ensures !Contains(Lines(ls), Marker)
    decreases |ls|
  {
    if |ls| > 0 {
      LinesNoMarker(ls[1..]);
      GlueNoContains(ls[0], '\n', Lines(ls[1..]), Marker);
      assert Lines(ls) == ls[0] + ['\n'] + Lines(ls[1..]);
    }
  }

  lemma {:induction false} EntryBodyLines(addrs: Dict, bals: Dict)
    requires CleanEntries(addrs, bals)
    ensures forall i :: 0 <= i < |EntryLines(addrs, bals)| ==> BodyLine(EntryLines(addrs, bals)[i])
    decreases |addrs|
  {
    if |addrs| > 0 {
      var n := addrs[0].0;
      var rest := EntryLines(addrs[1..], bals);
      EntryBodyLines(addrs[1..], bals);
      match Get(bals, n)
      case Some(b) =>
        assert EntryLines(addrs, bals) == [AddressLine(n, addrs[0].1), BalanceLine(n, b)] + rest;
        AddressBodyLine(n, addrs[0].1);
        BalanceBodyLine(n, b);
        PairBodyLines(AddressLine(n, addrs[0].1), BalanceLine(n, b), rest);
      case None =>
        assert EntryLines(addrs, bals) == rest;
    }
  }

  lemma PairBodyLines(x: string, y: string, rest: seq<string>)
    requires BodyLine(x) && BodyLine(y)
    requires forall i :: 0 <= i < |rest| ==> BodyLine(rest[i])
    ensures forall i :: 0 <= i < |[x, y] + rest| ==> BodyLine(([x, y] + rest)[i])
  {
  }

  /** Removing trailing whitespace from `x` leaves something both readers
      classify exactly as they classify `x`. */
  predicate TrimSafe(x: string) {
    && TrimRight(x) != []
    && ClassifyMain(TrimRight(x)) == ClassifyMain(x)
    && ClassifyEntry(TrimRight(x)) == ClassifyEntry(x)
  }

  lemma BalanceTrimSafe(n: string, b: string)
    requires CleanNetwork(n) && CleanValue(b)
    ensures TrimSafe(BalanceLine(n, b))
  {
    TrimBalanceLine(n, b);
  }

  /** The last entry line is a balance line, which `rstrip()` cannot disturb. */
  lemma {:induction false} EntryLinesLast(addrs: Dict, bals: Dict)
    requires CleanEntries(addrs, bals) && |EntryLines(addrs, bals)| > 0
    ensures TrimSafe(EntryLines(addrs, bals)[|EntryLines(addrs, bals)| - 1])
    decreases |addrs|
  {
    var n := addrs[0].0;
    var rest := EntryLines(addrs[1..], bals);
    match Get(bals, n)
    case Some(b) =>
      assert EntryLines(addrs, bals) == [AddressLine(n, addrs[0].1), BalanceLine(n, b)] + rest;
      if |rest| > 0 {
        EntryLinesLast(addrs[1..], bals);
        PairLast(AddressLine(n, addrs[0].1), BalanceLine(n, b), rest);
      } else {
        BalanceTrimSafe(n, b);
        PairLast(AddressLine(n, addrs[0].1), BalanceLine(n, b), rest);
      }
    case None =>
      assert EntryLines(addrs, bals) == rest;
      EntryLinesLast(addrs[1..], bals);
  }

  lemma PairLast(x: string, y: string, rest: seq<string>)
    ensures ([x, y] + rest)[|[x, y] + rest| - 1] == if |rest| > 0 then rest[|rest| - 1] else y
  {
  }

  // ---------------------------------------------------------------------
  // Scanning

  lemma {:induction false} ScanMainConcat(w: Wallet, xs: seq<string>, ys: seq<string>)
    ensures ScanMain(w, xs + ys) == ScanMain(ScanMain(w, xs), ys)
    decreases |xs|
  {
    if |xs| > 0 {
      assert (xs + ys)[1..] == xs[1..] + ys;
      ScanMainConcat(StepMain(w, xs[0]), xs[1..], ys);
    } else {
      assert xs + ys == ys;
    }
  }

  lemma {:induction false} ScanGuiConcat(w: Wallet, xs: seq<string>, ys: seq<string>)
    ensures ScanGui(w, xs + ys) == ScanGui(ScanGui(w, xs), ys)
    decreases |xs|
  {
    if |xs| > 0 {
      assert (xs + ys)[1..] == xs[1..] + ys;
      ScanGuiConcat(ApplyEntry(w, ClassifyEntry(xs[0])), xs[1..], ys);
    } else {
      assert xs + ys == ys;
    }
  }

  /** Replacing the last line by one the parser classifies the same way does
      not change the result. */
  lemma ScanLastLine(w: Wallet, xs: seq<string>, x: string, y: string)
    requires ClassifyMain(x) == ClassifyMain(y)
    ensures ScanMain(w, xs + [x]) == ScanMain(w, xs + [y])
  {
    ScanMainConcat(w, xs, [x]);
    ScanMainConcat(w, xs, [y]);
  }

  lemma ScanGuiLastLine(w: Wallet, xs: seq<string>, x: string, y: string)
    requires ClassifyEntry(x) == ClassifyEntry(y)
    ensures ScanGui(w, xs + [x]) == ScanGui(w, xs + [y])
  {
    ScanGuiConcat(w, xs, [x]);
    ScanGuiConcat(w, xs, [y]);
  }

  lemma KeysSnoc(d: Dict, k: string, v: string)
    ensures Keys(d + [(k, v)]) == Keys(d) + [k]
  {
  }

  lemma ScanOne(w: Wallet, x: string)
    ensures ScanMain(w, [x]) == StepMain(w, x)
    ensures ScanGui(w, [x]) == ApplyEntry(w, ClassifyEntry(x))
  {
    assert [x][1..] == [];
  }

  /** Two lines whose meaning is known are applied in order. */
  lemma ScanTwo(w: Wallet, x: string, y: string, ex: Entry, ey: Entry)
    requires ClassifyMain(x) == EntryKind(ex) && ClassifyMain(y) == EntryKind(ey)
    ensures ScanMain(w, [x, y]) == ApplyEntry(ApplyEntry(w, ex), ey)
  {
    assert [x, y][1..] == [y];
    assert StepMain(w, x) == ApplyEntry(w, ex);
    ScanOne(ApplyEntry(w, ex), y);
  }

  lemma ScanGuiTwo(w: Wallet, x: string, y: string, ex: Entry, ey: Entry)
    requires ClassifyEntry(x) == ex && ClassifyEntry(y) == ey
    ensures ScanGui(w, [x, y]) == ApplyEntry(ApplyEntry(w, ex), ey)
  {
    assert [x, y][1..] == [y];
    ScanOne(ApplyEntry(w, ex), y);
  }

  /** An entry pair for a network not yet in the maps appends to both. */
  lemma ApplyPair(w: Wallet, n: string, a: string, b: string)
    requires n !in Keys(w.addresses) && n !in Keys(w.balances)
    ensures ApplyEntry(ApplyEntry(w, AddressEntry(n, a)), BalanceEntry(n, b))
      == w.(addresses := w.addresses + [(n, a)], balances := w.balances + [(n, b)])
  {
  }

  /** Both readers add the two lines of one entry pair to the maps. */
  lemma ScanPair(w: Wallet, n: string, a: string, b: string)
    requires CleanNetwork(n) && CleanValue(a) && CleanValue(b)
    requires n !in Keys(w.addresses) && n !in Keys(w.balances)
    ensures ScanMain(w, [AddressLine(n, a), BalanceLine(n, b)])
      == w.(addresses := w.addresses + [(n, a)], balances := w.balances + [(n, b)])
    ensures ScanGui(w, [AddressLine(n, a), BalanceLine(n, b)])
      == w.(addresses := w.addresses + [(n, a)], balances := w.balances + [(n, b)])
  {
    MainAddress(n, " ", a);
    MainBalance(n, " ", b);
    ClassifyAddress(n, " ", a);
    ClassifyBalance(n, " ", b);
    ScanTwo(w, AddressLine(n, a), BalanceLine(n, b), AddressEntry(n, a), BalanceEntry(n, b));
    ScanGuiTwo(w, AddressLine(n, a), BalanceLine(n, b), AddressEntry(n, a), BalanceEntry(n, b));
    ApplyPair(w, n, a, b);
  }

  /** A network with a balance extends both kept maps by one pair. */
  lemma KeptStep(aa: Dict, bb: Dict, addrs: Dict, bals: Dict, b: string)
    requires |addrs| > 0 && Get(bals, addrs[0].0) == Some(b)
    ensures aa + [addrs[0]] + Kept(addrs[1..], bals) == aa + Kept(addrs, bals)
    ensures bb + [(addrs[0].0, b)] + KeptBalances(addrs[1..], bals) == bb + KeptBalances(addrs, bals)
  {
    KeptHead(addrs, bals, b);
    KeptBalancesHead(addrs, bals, b);
    AppendAssoc(aa, [addrs[0]], Kept(addrs[1..], bals));
    AppendAssoc(bb, [(addrs[0].0, b)], KeptBalances(addrs[1..], bals));
  }

  lemma AppendAssoc<T>(x: seq<T>, y: seq<T>, z: seq<T>)
    ensures x + y + z == x + (y + z)
  {
  }

  lemma KeptHead(addrs: Dict, bals: Dict, b: string)
    requires |addrs| > 0 && Get(bals, addrs[0].0) == Some(b)
    ensures Kept(addrs, bals) == [addrs[0]] + Kept(addrs[1..], bals)
  {
    assert addrs[0].0 in Keys(bals);
  }

  lemma KeptBalancesHead(addrs: Dict, bals: Dict, b: string)
    requires |addrs| > 0 && Get(bals, addrs[0].0) == Some(b)
    ensures KeptBalances(addrs, bals) == [(addrs[0].0, b)] + KeptBalances(addrs[1..], bals)
  {
  }

  /** Scanning the entry lines of a record adds exactly the kept networks, in
      order, to both maps; both readers agree on them. */
  lemma {:induction false} ScanEntries(w: Wallet, addrs: Dict, bals: Dict)
    requires DistinctKeys(addrs) && CleanEntries(addrs, bals)
    requires forall i :: 0 <= i < |addrs| ==>
      addrs[i].0 !in Keys(w.addresses) && addrs[i].0 !in Keys(w.balances)
    ensures ScanMain(w, EntryLines(addrs, bals))
      == w.(addresses := w.addresses + Kept(addrs, bals), balances := w.balances + KeptBalances(addrs, bals))
    ensures ScanGui(w, EntryLines(addrs, bals))
      == w.(addresses := w.addresses + Kept(addrs, bals), balances := w.balances + KeptBalances(addrs, bals))
    decreases |addrs|
  {
    if |addrs| == 0 {
      assert w.addresses + [] == w.addresses && w.balances + [] == w.balances;
    } else {
      var n := addrs[0].0;
      var a := addrs[0].1;
      assert DistinctKeys(addrs[1..]) by {
        assert forall i :: 0 <= i < |addrs| - 1 ==> addrs[1..][i] == addrs[i + 1];
      }
      match Get(bals, n)
      case None =>
        ScanEntries(w, addrs[1..], bals);
      case Some(b) =>
        var pair := [AddressLine(n, a), BalanceLine(n, b)];
        var w' := w.(addresses := w.addresses + [(n, a)], balances := w.balances + [(n, b)]);
        ScanPair(w, n, a, b);
        assert forall i :: 0 <= i < |addrs| - 1 ==>
          addrs[1..][i].0 !in Keys(w'.addresses) && addrs[1..][i].0 !in Keys(w'.balances)
        by {
          KeysSnoc(w.addresses, n, a);
          KeysSnoc(w.balances, n, b);
          assert forall i :: 1 <= i < |addrs| ==> addrs[i].0 != n;
        }
        ScanEntries(w', addrs[1..], bals);
        ScanMainConcat(w, pair, EntryLines(addrs[1..], bals));
        ScanGuiConcat(w, pair, EntryLines(addrs[1..], bals));
        KeptStep(w.addresses, w.balances, addrs, bals, b);
    }
  }

  // ---------------------------------------------------------------------
  // Blocks

  /** The lines after the header: the seed line and the entry pairs. */
  function Tail(m: string, addrs: Dict, bals: Dict): (t: seq<string>)
    ensures |t| >= 1
  {
    [SeedLine(m)] + EntryLines(addrs, bals)
  }

  /** A list of lines with trailing whitespace removed from the last one. */
  function TrimLast(t: seq<string>): seq<string>
    requires |t| >= 1
  {
    t[..|t| - 1] + [TrimRight(t[|t| - 1])]
  }

  /** The text of a record after the marker: the rest of the header line, the
      tail lines and a blank line. */
  function BodyText(ts: string, t: seq<string>): string {
    Lines([" " + ts + " ==="] + t + [""])
  }

  /** A prefix of the first line is a prefix of the written text. */
  lemma LinesPrefixFirst(p: string, x: string, rest: seq<string>)
    ensures Lines([p + x] + rest) == p + Lines([x] + rest)
  {
    assert ([p + x] + rest)[1..] == rest && ([x] + rest)[1..] == rest;
  }

  lemma SaveFindingsText(ts: string, m: string, addrs: Dict, bals: Dict)
    ensures SaveFindings(ts, m, addrs, bals) == Marker + BodyText(ts, Tail(m, addrs, bals))
  {
    var rest := Tail(m, addrs, bals) + [""];
    assert HeaderLine(ts) == Marker + (" " + ts + " ===");
    assert RecordLines(ts, m, addrs, bals) == [HeaderLine(ts)] + rest;
    assert [" " + ts + " ==="] + Tail(m, addrs, bals) + [""] == [" " + ts + " ==="] + rest;
    LinesPrefixFirst(Marker, " " + ts + " ===", rest);
  }

  /** Sequence bookkeeping for replacing the last element of a non-empty tail. */
  lemma LastSplit<T>(x: T, t: seq<T>, y: T)
    requires |t| >= 1
    ensures [x] + t == ([x] + t[..|t| - 1]) + [t[|t| - 1]]
    ensures [x] + (t[..|t| - 1] + [y]) == ([x] + t[..|t| - 1]) + [y]
  {
  }

  /** The header remainder is whitespace followed by the recovered timestamp. */
  lemma HeaderPad(ts: string)
    ensures " " + ts + " ===" == (if ts == [] then "  " else " ") + Stamp(ts)
    ensures AllSpace(if ts == [] then "  " else " ")
  {
  }

  lemma BodyTextJoin(ts: string, t: seq<string>)
    ensures BodyText(ts, t) == Join([" " + ts + " ==="] + t, "\n") + "\n\n"
  {
    var l0 := [" " + ts + " ==="] + t;
    assert [" " + ts + " ==="] + t + [""] == l0 + [""];
    LinesAppend(l0, [""]);
    assert Lines([""]) == "\n" by {
      assert [""][1..] == [];
    }
    LinesJoin(l0);
  }

  /** Moving a prefix of the first part out of a join. */
  lemma JoinHeadPrefix(a: string, b: string, t: seq<string>, sep: string)
    requires |t| >= 1
    ensures Join([a + b] + t, sep) == a + Join([b] + t, sep)
  {
    JoinStartsWithFirst([a + b] + t, sep);
    JoinStartsWithFirst([b] + t, sep);
    assert ([a + b] + t)[1..] == t && ([b] + t)[1..] == t;
  }

  /** Whitespace in front of a string that starts with a visible character is
      exactly what `lstrip()` removes. */
  lemma TrimLeftPadded(pad: string, x: string)
    requires AllSpace(pad) && |x| > 0 && !IsSpace(x[0])
    ensures TrimLeft(pad + x) == x
  {
    TrimLeftSpaces(pad, x);
  }

  lemma PadJoin(pad: string, x: string, t: seq<string>, sep: string, tail: string)
    requires |t| >= 1
    ensures Join([pad + x] + t, sep) + tail == pad + (Join([x] + t, sep) + tail)
  {
    JoinHeadPrefix(pad, x, t, sep);
  }

  /** A body is the header padding followed by the lines the reader sees, plus
      the two closing newlines. */
  lemma BodyPadded(ts: string, t: seq<string>)
    requires |t| >= 1
    ensures BodyText(ts, t) == (if ts == [] then "  " else " ") + (Join([Stamp(ts)] + t, "\n") + "\n\n")
  {
    BodyTextJoin(ts, t);
    HeaderPad(ts);
    PadJoin(if ts == [] then "  " else " ", Stamp(ts), t, "\n", "\n\n");
  }

  lemma StampFirst(ts: string, t: seq<string>)
    requires IsTrimmed(ts)
    ensures |Join([Stamp(ts)] + t, "\n")| > 0 && !IsSpace(Join([Stamp(ts)] + t, "\n")[0])
  {
    JoinStartsWithFirst([Stamp(ts)] + t, "\n");
  }

  lemma SnocLast<T>(t: seq<T>)
    requires |t| >= 1
    ensures t == t[..|t| - 1] + [t[|t| - 1]]
  {
  }

  /** Leading whitespace of a body ends where the timestamp starts. */
  lemma TrimLeftBody(ts: string, t: seq<string>)
    requires IsTrimmed(ts) && |t| >= 1
    ensures TrimLeft(BodyText(ts, t)) == Join([Stamp(ts)] + t, "\n") + "\n\n"
  {
    BodyPadded(ts, t);
    HeaderPad(ts);
    StampFirst(ts, t);
    TrimLeftPadded(if ts == [] then "  " else " ", Join([Stamp(ts)] + t, "\n") + "\n\n");
  }

  /** Replacing the last element of a non-empty tail, seen through a join. */
  lemma JoinLastPart(s: string, t: seq<string>, y: string, sep: string)
    requires |t| >= 1
    ensures Join([s] + (t[..|t| - 1] + [y]), sep) == Join([s] + t[..|t| - 1], sep) + sep + y
  {
    LastSplit(s, t, y);
    JoinSnoc([s] + t[..|t| - 1], y, sep);
  }

  /** The two closing newlines and the trailing whitespace of the last line
      are all that `rstrip()` removes. */
  lemma TrimRightClosing(j: string, last: string)
    requires TrimRight(last) != []
    ensures TrimRight(j + last + "\n\n") == j + TrimRight(last)
  {
    TrimRightSpaces(j + last, "\n\n");
    TrimRightConcat(j, last);
  }

  /** Trailing whitespace of a body ends inside its last tail line. */
  lemma TrimRightBody(s: string, t: seq<string>)
    requires |t| >= 1 && TrimRight(t[|t| - 1]) != []
    ensures TrimRight(Join([s] + t, "\n") + "\n\n") == Join([s] + TrimLast(t), "\n")
  {
    var last := t[|t| - 1];
    SnocLast(t);
    JoinLastPart(s, t, last, "\n");
    JoinLastPart(s, t, TrimRight(last), "\n");
    TrimRightClosing(Join([s] + t[..|t| - 1], "\n") + "\n", last);
  }

  lemma StripSteps(s: string, l: string, r: string)
    requires TrimLeft(s) == l && TrimRight(l) == r
    ensures Strip(s) == r
  {
  }

  /** Right-stripping the last line adds no character to it. */
  lemma TrimLastLacks(x: string, t: seq<string>, c: char)
    requires c !in x && |t| >= 1
    requires forall i :: 0 <= i < |t| ==> c !in t[i]
    ensures forall i :: 0 <= i < |[x] + TrimLast(t)| ==> c !in ([x] + TrimLast(t))[i]
  {
    var last := t[|t| - 1];
    assert TrimRight(last) == last[..|TrimRight(last)|];
  }

  /** A block whose stripped text is a newline join of newline-free lines,
      the first of them not empty, reads back as those lines. */
  lemma LinesOfStripped(block: string, ls: seq<string>)
    requires |ls| >= 1 && |ls[0]| > 0 && Strip(block) == Join(ls, "\n")
    requires forall i :: 0 <= i < |ls| ==> '\n' !in ls[i]
    ensures !Blank(block) && BlockLines(block) == ls
  {
    JoinStartsWithFirst(ls, "\n");
    PartsLackChar(ls, '\n');
    assert UniqueLast("\n");
    SplitJoin(ls, "\n");
  }

  lemma StripBody(ts: string, t: seq<string>)
    requires IsTrimmed(ts) && |t| >= 1 && TrimRight(t[|t| - 1]) != []
    ensures Strip(BodyText(ts, t)) == Join([Stamp(ts)] + TrimLast(t), "\n")
  {
    TrimLeftBody(ts, t);
    TrimRightBody(Stamp(ts), t);
    StripSteps(BodyText(ts, t), Join([Stamp(ts)] + t, "\n") + "\n\n", Join([Stamp(ts)] + TrimLast(t), "\n"));
  }

  /** The lines a reader finds in a body: the recovered timestamp, then the
      tail lines with the last one right-stripped. */
  lemma BodyLines(ts: string, t: seq<string>)
    requires IsTrimmed(ts) && '\n' !in ts && |t| >= 1 && TrimRight(t[|t| - 1]) != []
    requires forall i :: 0 <= i < |t| ==> '\n' !in t[i]
    ensures !Blank(BodyText(ts, t))
    ensures BlockLines(BodyText(ts, t)) == [Stamp(ts)] + TrimLast(t)
  {
    StripBody(ts, t);
    TrimLastLacks(Stamp(ts), t, '\n');
    LinesOfStripped(BodyText(ts, t), [Stamp(ts)] + TrimLast(t));
  }

  lemma {:induction false} GatherAppend<R>(read: string -> seq<R>, a: seq<string>, b: seq<string>)
    ensures Gather(read, a + b) == Gather(read, a) + Gather(read, b)
    decreases |a|
  {
    if |a| == 0 {
      assert a + b == b;
    } else {
      assert (a + b)[1..] == a[1..] + b;
      GatherAppend(read, a[1..], b);
    }
  }

  /** The empty text before the first marker yields nothing. */
  lemma GatherLeadingEmpty<R>(read: string -> seq<R>, body: string)
    requires !Blank(body)
    ensures Gather(read, [[], body]) == read(body)
  {
    assert Blank([]);
    assert [[], body][1..] == [body];
    assert [body][1..] == [];
    assert Gather(read, [body]) == read(body) + Gather(read, []);
  }

  /** A text made of one marker and a marker-free block parses as that block alone. */
  lemma OneBlock(body: string)
    requires !Contains(body, Marker) && !Blank(body)
    ensures History(Marker + body) == [ParseBlock(body)]
    ensures GuiHistory(Marker + body) == GuiBlockRows(body)
  {
    Separators();
    SplitLeading(Marker, body);
    GatherLeadingEmpty(block => [ParseBlock(block)], body);
    GatherLeadingEmpty(GuiBlockRows, body);
  }

  // ---------------------------------------------------------------------
  // Records

  /** Every line after the header of a record can sit inside a block. */
  lemma TailBodyLines(m: string, addrs: Dict, bals: Dict)
    requires '\n' !in m && !Contains(m, Marker) && CleanEntries(addrs, bals)
    ensures forall i :: 0 <= i < |Tail(m, addrs, bals)| ==> BodyLine(Tail(m, addrs, bals)[i])
  {
    SeedBodyLine(m);
    EntryBodyLines(addrs, bals);
  }

  /** The body of a record holds no marker, so it stays one block. */
  lemma BodyNoMarker(ts: string, t: seq<string>)
    requires CleanStamp(ts)
    requires forall i :: 0 <= i < |t| ==> BodyLine(t[i])
    ensures !Contains(BodyText(ts, t), Marker)
  {
    var ls := [" " + ts + " ==="] + t + [""];
    HeadBodyLine(ts);
    assert BodyLine("") by {
      EmptyLacksMarker();
    }
    assert forall i :: 0 <= i < |ls| ==> BodyLine(ls[i]);
    LinesNoMarker(ls);
  }

  lemma EmptyLacksMarker()
    ensures !Contains([], Marker)
  {
  }

  /** The last line of a record survives `rstrip()` for the web reader. */
  lemma TailLastMain(m: string, addrs: Dict, bals: Dict)
    requires CleanMnemonic(m) && CleanEntries(addrs, bals)
    ensures TrimRight(Tail(m, addrs, bals)[|Tail(m, addrs, bals)| - 1]) != []
    ensures ClassifyMain(TrimRight(Tail(m, addrs, bals)[|Tail(m, addrs, bals)| - 1]))
      == ClassifyMain(Tail(m, addrs, bals)[|Tail(m, addrs, bals)| - 1])
  {
    var e := EntryLines(addrs, bals);
    if |e| == 0 {
      assert Tail(m, addrs, bals) == [SeedLine(m)];
      TrimSeedLineMain(m);
    } else {
      assert Tail(m, addrs, bals)[|Tail(m, addrs, bals)| - 1] == e[|e| - 1];
      EntryLinesLast(addrs, bals);
    }
  }

  /** The last line of a record survives `rstrip()` for the desktop readers. */
  lemma TailLastGui(m: string, addrs: Dict, bals: Dict)
    requires CleanValue(m) && CleanEntries(addrs, bals)
    ensures TrimRight(Tail(m, addrs, bals)[|Tail(m, addrs, bals)| - 1]) != []
    ensures ClassifyEntry(TrimRight(Tail(m, addrs, bals)[|Tail(m, addrs, bals)| - 1]))
      == ClassifyEntry(Tail(m, addrs, bals)[|Tail(m, addrs, bals)| - 1])
  {
    var e := EntryLines(addrs, bals);
    if |e| == 0 {
      assert Tail(m, addrs, bals) == [SeedLine(m)];
      TrimSeedLineGui(m);
    } else {
      assert Tail(m, addrs, bals)[|Tail(m, addrs, bals)| - 1] == e[|e| - 1];
      EntryLinesLast(addrs, bals);
    }
  }

  lemma StripTrimmed(v: string)
    requires IsTrimmed(v)
    ensures Strip(v) == v
  {
    assert [] + v + [] == v;
    StripPadded([], v, []);
  }

  lemma StampTrimmed(ts: string)
    requires IsTrimmed(ts)
    ensures IsTrimmed(Stamp(ts)) && |Stamp(ts)| > 0
  {
  }

  /** The web reader on a block whose lines are known. */
  lemma ParseLines(block: string, ls: seq<string>)
    requires BlockLines(block) == ls
    ensures ParseBlock(block) == ScanMain(Wallet(Strip(ls[0]), "", [], []), ls[1..])
  {
  }

  /** The desktop readers on a block whose lines are known. */
  lemma GuiLines(block: string, ls: seq<string>)
    requires BlockLines(block) == ls
    ensures GuiBlockRows(block)
      == var w := ScanGui(Wallet(Strip(ls[0]), "", [], []), ls); Rows(w.timestamp, w.addresses, w.balances)
  {
  }

  /** The web reader recovers the timestamp and scans the tail lines. */
  lemma ParseBody(ts: string, t: seq<string>)
    requires IsTrimmed(ts) && '\n' !in ts && |t| >= 1
    requires forall i :: 0 <= i < |t| ==> '\n' !in t[i]
    requires TrimRight(t[|t| - 1]) != [] && ClassifyMain(TrimRight(t[|t| - 1])) == ClassifyMain(t[|t| - 1])
    ensures !Blank(BodyText(ts, t))
    ensures ParseBlock(BodyText(ts, t)) == ScanMain(Wallet(Stamp(ts), "", [], []), t)
  {
    var ls := [Stamp(ts)] + TrimLast(t);
    BodyLines(ts, t);
    ParseLines(BodyText(ts, t), ls);
    assert ls[0] == Stamp(ts) && ls[1..] == TrimLast(t);
    StampTrimmed(ts);
    StripTrimmed(Stamp(ts));
    SnocLast(t);
    ScanLastLine(Wallet(Stamp(ts), "", [], []), t[..|t| - 1], TrimRight(t[|t| - 1]), t[|t| - 1]);
  }

  /** The desktop readers skip the timestamp line and scan the tail lines. */
  lemma GuiParseBody(ts: string, t: seq<string>)
    requires IsTrimmed(ts) && '\n' !in ts && |t| >= 1 && ClassifyEntry(Stamp(ts)) == NoEntry
    requires forall i :: 0 <= i < |t| ==> '\n' !in t[i]
    requires TrimRight(t[|t| - 1]) != [] && ClassifyEntry(TrimRight(t[|t| - 1])) == ClassifyEntry(t[|t| - 1])
    ensures !Blank(BodyText(ts, t))
    ensures GuiBlockRows(BodyText(ts, t))
      == var w := ScanGui(Wallet(Stamp(ts), "", [], []), t); Rows(w.timestamp, w.addresses, w.balances)
  {
    var w0 := Wallet(Stamp(ts), "", [], []);
    var ls := [Stamp(ts)] + TrimLast(t);
    BodyLines(ts, t);
    GuiLines(BodyText(ts, t), ls);
    StampTrimmed(ts);
    StripTrimmed(Stamp(ts));
    ScanGuiConcat(w0, [Stamp(ts)], TrimLast(t));
    ScanOne(w0, Stamp(ts));
    SnocLast(t);
    ScanGuiLastLine(w0, t[..|t| - 1], TrimRight(t[|t| - 1]), t[|t| - 1]);
  }

  /** The web reader takes the mnemonic from the seed line and the kept
      networks from the entry lines. */
  lemma ScanTail(w: Wallet, m: string, addrs: Dict, bals: Dict)
    requires CleanMnemonic(m) && DistinctKeys(addrs) && CleanEntries(addrs, bals)
    requires w.addresses == [] && w.balances == []
    ensures ScanMain(w, Tail(m, addrs, bals))
      == w.(mnemonic := m, addresses := Kept(addrs, bals), balances := KeptBalances(addrs, bals))
  {
    ScanMainConcat(w, [SeedLine(m)], EntryLines(addrs, bals));
    ScanOne(w, SeedLine(m));
    MainSeed(" ", m);
    ScanEntries(w.(mnemonic := m), addrs, bals);
    assert [] + Kept(addrs, bals) == Kept(addrs, bals);
    assert [] + KeptBalances(addrs, bals) == KeptBalances(addrs, bals);
  }

  /** The desktop readers ignore the seed line and take the kept networks. */
  lemma GuiScanTail(w: Wallet, m: string, addrs: Dict, bals: Dict)
    requires CleanValue(m) && DistinctKeys(addrs) && CleanEntries(addrs, bals)
    requires w.addresses == [] && w.balances == []
    ensures ScanGui(w, Tail(m, addrs, bals))
      == w.(addresses := Kept(addrs, bals), balances := KeptBalances(addrs, bals))
  {
    ScanGuiConcat(w, [SeedLine(m)], EntryLines(addrs, bals));
    ScanOne(w, SeedLine(m));
    GuiSeed(" ", m);
    ScanEntries(w, addrs, bals);
    assert [] + Kept(addrs, bals) == Kept(addrs, bals);
    assert [] + KeptBalances(addrs, bals) == KeptBalances(addrs, bals);
  }

  /** A header timestamp and tail lines the web reader takes back as they
      were: no line holds a marker, and the last one survives `rstrip()`. */
  predicate MainTail(ts: string, t: seq<string>) {
    && CleanStamp(ts) && |t| >= 1
    && (forall i :: 0 <= i < |t| ==> BodyLine(t[i]))
    && TrimRight(t[|t| - 1]) != [] && ClassifyMain(TrimRight(t[|t| - 1])) == ClassifyMain(t[|t| - 1])
  }

  /** The same for the desktop readers, which also must not take the
      timestamp line for an entry. */
  predicate GuiTail(ts: string, t: seq<string>) {
    && CleanStamp(ts) && |t| >= 1 && ClassifyEntry(Stamp(ts)) == NoEntry
    && (forall i :: 0 <= i < |t| ==> BodyLine(t[i]))
    && TrimRight(t[|t| - 1]) != [] && ClassifyEntry(TrimRight(t[|t| - 1])) == ClassifyEntry(t[|t| - 1])
  }

  /** The tail of a record written with clean values meets the web reader's
      conditions. */
  lemma TailMain(ts: string, m: string, addrs: Dict, bals: Dict)
    requires CleanStamp(ts) && CleanMnemonic(m) && CleanEntries(addrs, bals)
    ensures MainTail(ts, Tail(m, addrs, bals))
  {
    TailBodyLines(m, addrs, bals);
    TailLastMain(m, addrs, bals);
  }

  /** The tail of a record written with clean values meets the desktop
      readers' conditions. */
  lemma TailGui(ts: string, m: string, addrs: Dict, bals: Dict)
    requires CleanValue(ts) && CleanValue(m) && CleanEntries(addrs, bals)
    ensures GuiTail(ts, Tail(m, addrs, bals))
  {
    TailBodyLines(m, addrs, bals);
    TailLastGui(m, addrs, bals);
    GuiStamp(ts);
  }

  /** A body of marker-free lines, whose last line survives `rstrip()`, is
      one block of the web history. */
  lemma BodyHistory(ts: string, t: seq<string>)
    requires MainTail(ts, t)
    ensures History(Marker + BodyText(ts, t)) == [ScanMain(Wallet(Stamp(ts), "", [], []), t)]
  {
    BodyNoMarker(ts, t);
    ParseBody(ts, t);
    OneBlock(BodyText(ts, t));
  }

  /** The same body is one block of the desktop history. */
  lemma GuiBodyHistory(ts: string, t: seq<string>)
    requires GuiTail(ts, t)
    ensures GuiHistory(Marker + BodyText(ts, t))
      == var w := ScanGui(Wallet(Stamp(ts), "", [], []), t); Rows(w.timestamp, w.addresses, w.balances)
  {
    BodyNoMarker(ts, t);
    GuiParseBody(ts, t);
    OneBlock(BodyText(ts, t));
  }

  /** What the web history page shows for a record written with timestamp
      `ts`: the timestamp with the closing ` ===` still attached, the
      mnemonic, and the address and balance of every network that had both. */
  function Recovered(ts: string, m: string, addrs: Dict, bals: Dict): Wallet {
    Wallet(Stamp(ts), m, Kept(addrs, bals), KeptBalances(addrs, bals))
  }

  /** The body of a record is one block: the web reader recovers the record
      from it. */
  lemma RecordBodyHistory(ts: string, m: string, addrs: Dict, bals: Dict)
    requires CleanStamp(ts) && CleanMnemonic(m)
    requires DistinctKeys(addrs) && CleanEntries(addrs, bals)
    ensures History(Marker + BodyText(ts, Tail(m, addrs, bals))) == [Recovered(ts, m, addrs, bals)]
  {
    var w0 := Wallet(Stamp(ts), "", [], []);
    TailMain(ts, m, addrs, bals);
    BodyHistory(ts, Tail(m, addrs, bals));
    ScanTail(w0, m, addrs, bals);
  }

  /** The desktop readers recover the rows of the record from its body. */
  lemma GuiRecordBodyHistory(ts: string, m: string, addrs: Dict, bals: Dict)
    requires CleanValue(ts) && CleanValue(m)
    requires DistinctKeys(addrs) && CleanEntries(addrs, bals)
    ensures GuiHistory(Marker + BodyText(ts, Tail(m, addrs, bals)))
      == Rows(Stamp(ts), Kept(addrs, bals), KeptBalances(addrs, bals))
  {
    var w0 := Wallet(Stamp(ts), "", [], []);
    TailGui(ts, m, addrs, bals);
    GuiBodyHistory(ts, Tail(m, addrs, bals));
    GuiScanTail(w0, m, addrs, bals);
  }

  /** A record the guarded writer appends reads back, through the web
      history page, as exactly one wallet. */
  lemma RecordRoundTrip(ts: string, m: string, addrs: Dict, bals: Dict)
    requires CleanStamp(ts) && CleanMnemonic(m)
    requires DistinctKeys(addrs) && CleanEntries(addrs, bals)
    ensures History(SaveFindings(ts, m, addrs, bals)) == [Recovered(ts, m, addrs, bals)]
  {
    SaveFindingsText(ts, m, addrs, bals);
    RecordBodyHistory(ts, m, addrs, bals);
  }

  /** A record the guarded writer appends reads back, through either desktop
      loader, as one row per network that had an address and a balance. */
  lemma GuiRecordRoundTrip(ts: string, m: string, addrs: Dict, bals: Dict)
    requires CleanValue(ts) && CleanValue(m)
    requires DistinctKeys(addrs) && CleanEntries(addrs, bals)
    ensures GuiHistory(SaveFindings(ts, m, addrs, bals))
      == Rows(Stamp(ts), Kept(addrs, bals), KeptBalances(addrs, bals))
  {
    SaveFindingsText(ts, m, addrs, bals);
    GuiRecordBodyHistory(ts, m, addrs, bals);
  }

  // ---------------------------------------------------------------------
  // Text mode

  /** No line of `ls` holds a carriage return. */
  predicate NoReturns(ls: seq<string>) {
    forall i :: 0 <= i < |ls| ==> '\r' !in ls[i]
  }

  lemma {:induction false} LinesNoReturn(ls: seq<string>)
    requires NoReturns(ls)
    ensures '\r' !in Lines(ls)
    decreases |ls|
  {
    if |ls| > 0 {
      LinesNoReturn(ls[1..]);
    }
  }

  lemma NoReturnsPrepend(x: string, y: string, rest: seq<string>)
    requires '\r' !in x && '\r' !in y && NoReturns(rest)
    ensures NoReturns([x, y] + rest)
  {
    var ls := [x, y] + rest;
    assert forall i :: 2 <= i < |ls| ==> ls[i] == rest[i - 2];
  }

  lemma {:induction false} EntryLinesNoReturn(addrs: Dict, bals: Dict)
    requires CleanEntries(addrs, bals)
    ensures NoReturns(EntryLines(addrs, bals))
    decreases |addrs|
  {
    if |addrs| > 0 {
      var n := addrs[0].0;
      CleanHead(addrs, bals);
      EntryLinesNoReturn(addrs[1..], bals);
      match Get(bals, n)
      case Some(b) =>
        LabelledNoReturn(n, AddressLabel, addrs[0].1);
        LabelledNoReturn(n, BalanceLabel, b);
        NoReturnsPrepend(AddressLine(n, addrs[0].1), BalanceLine(n, b), EntryLines(addrs[1..], bals));
      case None =>
    }
  }

  /** The first address entry of clean entries, and its balance, hold no
      carriage return, and the remaining entries are clean. */
  lemma CleanHead(addrs: Dict, bals: Dict)
    requires |addrs| > 0 && CleanEntries(addrs, bals)
    ensures '\r' !in addrs[0].0 && '\r' !in addrs[0].1
    ensures Get(bals, addrs[0].0).Some? ==> '\r' !in Get(bals, addrs[0].0).value
    ensures CleanEntries(addrs[1..], bals)
  {
  }

  /** An entry line built from parts without a carriage return has none. */
  lemma LabelledNoReturn(n: string, tag: string, v: string)
    requires '\r' !in n && '\r' !in tag && '\r' !in v
    ensures '\r' !in n + " " + tag + " " + v
  {
  }

  /** A record written from clean values holds no carriage return, so the
      readers, which open the log in text mode, get back exactly the text
      that was written. */
  lemma ReadAsWritten(ts: string, m: string, addrs: Dict, bals: Dict)
    requires CleanStamp(ts) && CleanMnemonic(m) && CleanEntries(addrs, bals)
    ensures '\r' !in SaveFindings(ts, m, addrs, bals)
    ensures TextMode(SaveFindings(ts, m, addrs, bals)) == SaveFindings(ts, m, addrs, bals)
  {
    EntryLinesNoReturn(addrs, bals);
    var ls := RecordLines(ts, m, addrs, bals);
    RecordLayout(ts, m, addrs, bals);
    Framed(HeaderLine(ts), SeedLine(m), EntryLines(addrs, bals));
    LinesNoReturn(ls);
  }
}
