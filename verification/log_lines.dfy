/** Facts about single lines of the found-wallets log: how each line the
    writer produces is classified by the readers, and which strings cannot
    occur inside it. */
module LogLines {
  import opened PyStr
  import opened Dicts
  import opened WalletLog

  /** A stored value the format can carry: already stripped, on one line, and
      free of the record marker and of both entry labels. The readers open
      the log in text mode, which turns every carriage return into a line
      break, so a value holds neither. */
  predicate CleanValue(v: string) {
    IsTrimmed(v) && '\n' !in v && '\r' !in v && !Contains(v, Marker)
    && !Contains(v, AddressLabel) && !Contains(v, BalanceLabel)
  }

  /** A network name must in addition not look like a seed line. */
  predicate CleanNetwork(n: string) {
    CleanValue(n) && !StartsWith(n, SeedLabel)
  }

  /** A mnemonic the web history page recovers: the seed label is removed
      from the whole line, so the mnemonic must not contain it. */
  predicate CleanMnemonic(m: string) {
    IsTrimmed(m) && '\n' !in m && '\r' !in m && !Contains(m, Marker) && !Contains(m, SeedLabel)
  }

  /** A timestamp the web history page recovers. */
  predicate CleanStamp(ts: string) {
    IsTrimmed(ts) && '\n' !in ts && '\r' !in ts && !Contains(ts, Marker)
  }

  /** What a reader recovers as the timestamp of a record written at `ts`:
      the closing ` ===` of the header stays attached. */
  function Stamp(ts: string): string {
    if ts == [] then "===" else ts + " ==="
  }

  /** The separator a trimmed value keeps after `rstrip()` of its line. */
  function Pad(v: string): string {
    if v == [] then [] else " "
  }

  lemma Separators()
    ensures UniqueLast(Marker) && UniqueLast(AddressLabel) && UniqueLast(BalanceLabel) && UniqueLast("\n")
  {
    assert Marker[..|Marker| - 1] == "=== WALLET FOUND";
    assert AddressLabel[..|AddressLabel| - 1] == "Address";
    assert BalanceLabel[..|BalanceLabel| - 1] == "Balance";
  }

  lemma SpacesLack(w: string, c: char)
    requires AllSpace(w) && !IsSpace(c)
    ensures c !in w
  {
  }

  /** `rstrip()` of a line `p + " " + v` keeps the separator only when the
      value is not empty. */
  lemma TrimLine(p: string, v: string)
    requires |p| > 0 && !IsSpace(p[|p| - 1]) && IsTrimmed(v)
    ensures TrimRight(p + " " + v) == p + Pad(v) + v
  {
    if v == [] {
      assert p + " " + v == p + " ";
      assert (p + " ")[..|p|] == p;
      assert TrimRight(p) == p;
    } else {
      assert (p + " " + v)[|p + " " + v| - 1] == v[|v| - 1];
      assert p + Pad(v) + v == p + " " + v;
    }
  }

  // ---------------------------------------------------------------------
  // Classification

  /** A line with exactly one occurrence of a non-overlapping tag splits into
      the stripped text before and after it. */
  lemma LabelledOnce(x: string, tag: string, y: string)
    requires UniqueLast(tag) && !Contains(x, tag) && !Contains(y, tag)
    ensures Contains(x + tag + y, tag)
    ensures LabelledPair(x + tag + y, tag) == Some(Pair(Strip(x), Strip(y)))
  {
    ContainsMiddle(x, tag, y);
    var parts := Split(x + tag + y, tag);
    assert parts == [x, y] by {
      SplitConcat(x, tag, y);
      SplitNoSep(x, tag);
      SplitNoSep(y, tag);
    }
    assert |parts| == 2 && parts[0] == x && parts[1] == y;
  }

  /** A line holding a tag twice splits into three or more parts, so it is
      not a labelled pair. */
  lemma LabelledTwice(x: string, tag: string, y: string, z: string)
    requires UniqueLast(tag)
    ensures Contains(x + tag + y + tag + z, tag)
    ensures LabelledPair(x + tag + y + tag + z, tag) == None
  {
    assert x + tag + y + tag + z == x + tag + (y + tag + z);
    ContainsMiddle(x, tag, y + tag + z);
    SplitConcat(x, tag, y + tag + z);
    SplitConcat(y, tag, z);
  }

  /** A line with the address label twice, or with no address label and the
      balance label twice, contributes nothing. */
  lemma ClassifyTwice(x: string, y: string, z: string)
    ensures ClassifyEntry(x + AddressLabel + y + AddressLabel + z) == NoEntry
    ensures !Contains(x + BalanceLabel + y + BalanceLabel + z, AddressLabel) ==>
      ClassifyEntry(x + BalanceLabel + y + BalanceLabel + z) == NoEntry
  {
    Separators();
    LabelledTwice(x, AddressLabel, y, z);
    LabelledTwice(x, BalanceLabel, y, z);
  }

  /** Stripping `n + " "` and `w + v` recovers the trimmed `n` and `v`. */
  lemma StripSides(n: string, w: string, v: string)
    requires IsTrimmed(n) && IsTrimmed(v) && AllSpace(w)
    ensures Strip(n + " ") == n && Strip(w + v) == v
  {
    StripPadded([], n, " ");
    assert [] + n + " " == n + " ";
    StripPadded(w, v, []);
    assert w + v + [] == w + v;
  }

  /** `n Address: a`, with any whitespace after the label, is an address entry. */
  lemma ClassifyAddress(n: string, w: string, a: string)
    requires CleanValue(n) && CleanValue(a) && AllSpace(w)
    ensures ClassifyEntry(n + " " + AddressLabel + w + a) == AddressEntry(n, a)
  {
    Separators();
    assert !Contains(n + " ", AddressLabel) by {
      AppendNoContains(n, " ", AddressLabel);
    }
    assert !Contains(w + a, AddressLabel) by {
      SpacesLack(w, 'A');
      PrependNoContains(w, a, AddressLabel);
    }
    assert n + " " + AddressLabel + w + a == (n + " ") + AddressLabel + (w + a);
    LabelledOnce(n + " ", AddressLabel, w + a);
    StripSides(n, w, a);
  }

  /** `B` is foreign to `Address:`, so a balance line holds no address label. */
  lemma BalanceLineNoAddress(n: string, w: string, b: string)
    requires CleanValue(n) && CleanValue(b) && AllSpace(w)
    ensures !Contains(n + " " + BalanceLabel + w + b, AddressLabel)
  {
    Separators();
    assert n + " " + BalanceLabel + w + b == (n + " ") + ['B'] + ("alance:" + (w + b));
    AppendNoContains(n, " ", AddressLabel);
    SpacesLack(w, 'A');
    PrependNoContains(w, b, AddressLabel);
    PrependNoContains("alance:", w + b, AddressLabel);
    GlueNoContains(n + " ", 'B', "alance:" + (w + b), AddressLabel);
  }

  /** `n Balance: b`, with any whitespace after the label, is a balance entry. */
  lemma ClassifyBalance(n: string, w: string, b: string)
    requires CleanValue(n) && CleanValue(b) && AllSpace(w)
    ensures ClassifyEntry(n + " " + BalanceLabel + w + b) == BalanceEntry(n, b)
  {
    Separators();
    BalanceLineNoAddress(n, w, b);
    assert !Contains(n + " ", BalanceLabel) by {
      AppendNoContains(n, " ", BalanceLabel);
    }
    assert !Contains(w + b, BalanceLabel) by {
      SpacesLack(w, 'B');
      PrependNoContains(w, b, BalanceLabel);
    }
    assert n + " " + BalanceLabel + w + b == (n + " ") + BalanceLabel + (w + b);
    LabelledOnce(n + " ", BalanceLabel, w + b);
    StripSides(n, w, b);
  }

  /** An entry line never starts with the seed label. */
  lemma EntryNotSeed(n: string, tag: string, rest: string)
    requires !StartsWith(n, SeedLabel)
    requires tag == AddressLabel || tag == BalanceLabel
    ensures !StartsWith(n + " " + tag + rest, SeedLabel)
  {
    var line := n + " " + tag + rest;
    if |line| >= |SeedLabel| {
      if |n| >= |SeedLabel| {
        assert line[..|SeedLabel|] == n[..|SeedLabel|];
      } else if |n| == 4 {
        assert line[5] == tag[0] && SeedLabel[5] == 'p';
      } else {
        assert line[|n|] == ' ';
        assert ' ' !in SeedLabel[..4] && ' ' !in SeedLabel[5..];
        if |n| < 4 {
          assert SeedLabel[|n|] == SeedLabel[..4][|n|];
        } else {
          assert SeedLabel[|n|] == SeedLabel[5..][|n| - 5];
        }
        assert line[..|SeedLabel|][|n|] != SeedLabel[|n|];
      }
    }
  }

  lemma MainAddress(n: string, w: string, a: string)
    requires CleanNetwork(n) && CleanValue(a) && AllSpace(w)
    ensures ClassifyMain(n + " " + AddressLabel + w + a) == EntryKind(AddressEntry(n, a))
  {
    EntryNotSeed(n, AddressLabel, w + a);
    assert n + " " + AddressLabel + w + a == n + " " + AddressLabel + (w + a);
    ClassifyAddress(n, w, a);
  }

  lemma MainBalance(n: string, w: string, b: string)
    requires CleanNetwork(n) && CleanValue(b) && AllSpace(w)
    ensures ClassifyMain(n + " " + BalanceLabel + w + b) == EntryKind(BalanceEntry(n, b))
  {
    EntryNotSeed(n, BalanceLabel, w + b);
    assert n + " " + BalanceLabel + w + b == n + " " + BalanceLabel + (w + b);
    ClassifyBalance(n, w, b);
  }

  /** The web history parser reads the mnemonic back from a seed line. */
  lemma MainSeed(w: string, m: string)
    requires CleanMnemonic(m) && AllSpace(w)
    ensures ClassifyMain(SeedLabel + w + m) == SeedKind(m)
  {
    var line := SeedLabel + w + m;
    assert line[..|SeedLabel|] == SeedLabel;
    assert !Contains(w + m, SeedLabel) by {
      SpacesLack(w, 'S');
      PrependNoContains(w, m, SeedLabel);
    }
    var rest := ReplaceAll(line, SeedLabel, "");
    assert rest == w + m by {
      assert line == SeedLabel + (w + m);
      ReplaceLeading(SeedLabel, w + m);
    }
    assert Strip(rest) == m by {
      StripPadded(w, m, []);
      assert w + m + [] == w + m;
    }
  }

  /** Removing every copy of a tag that occurs only at the front leaves
      the text after it. */
  lemma ReplaceLeading(tag: string, rest: string)
    requires |tag| > 0 && !Contains(rest, tag)
    ensures ReplaceAll(tag + rest, tag, "") == rest
  {
    var line := tag + rest;
    assert line[..|tag|] == tag;
    assert line[|tag|..] == rest;
  }

  /** `p` is foreign to both entry labels, so a seed line holds neither. */
  lemma SeedLineLacks(w: string, m: string, tag: string)
    requires AllSpace(w) && !Contains(m, tag)
    requires tag == AddressLabel || tag == BalanceLabel
    ensures !Contains(SeedLabel + w + m, tag)
  {
    assert SeedLabel + w + m == "Seed " + ['p'] + ("hrase:" + (w + m));
    MissingCharNoContains("Seed ", tag, ':');
    SpacesLack(w, tag[0]);
    PrependNoContains(w, m, tag);
    PrependNoContains("hrase:", w + m, tag);
    GlueNoContains("Seed ", 'p', "hrase:" + (w + m), tag);
  }

  /** The desktop loaders see no entry in a seed line. */
  lemma GuiSeed(w: string, m: string)
    requires CleanValue(m) && AllSpace(w)
    ensures ClassifyEntry(SeedLabel + w + m) == NoEntry
  {
    SeedLineLacks(w, m, AddressLabel);
    SeedLineLacks(w, m, BalanceLabel);
  }

  /** The desktop loaders see no entry in the timestamp line. */
  lemma GuiStamp(ts: string)
    requires CleanValue(ts)
    ensures ClassifyEntry(Stamp(ts)) == NoEntry
  {
    if ts == [] {
      MissingCharNoContains("===", AddressLabel, ':');
      MissingCharNoContains("===", BalanceLabel, ':');
    } else {
      AppendNoContains(ts, " ===", AddressLabel);
      AppendNoContains(ts, " ===", BalanceLabel);
    }
  }

  // ---------------------------------------------------------------------
  // Trailing whitespace

  /** Removing trailing whitespace from a balance line changes nothing for
      either reader. */
  lemma TrimBalanceLine(n: string, b: string)
    requires CleanNetwork(n) && CleanValue(b)
    ensures TrimRight(BalanceLine(n, b)) != []
    ensures ClassifyMain(TrimRight(BalanceLine(n, b))) == ClassifyMain(BalanceLine(n, b))
    ensures ClassifyEntry(TrimRight(BalanceLine(n, b))) == ClassifyEntry(BalanceLine(n, b))
  {
    var p := n + " " + BalanceLabel;
    assert p[|p| - 1] == ':';
    TrimLine(p, b);
    assert BalanceLine(n, b) == p + " " + b;
    assert AllSpace(Pad(b)) && AllSpace(" ");
    MainBalance(n, Pad(b), b);
    MainBalance(n, " ", b);
    ClassifyBalance(n, Pad(b), b);
    ClassifyBalance(n, " ", b);
  }

  lemma TrimSeedLineMain(m: string)
    requires CleanMnemonic(m)
    ensures TrimRight(SeedLine(m)) != []
    ensures ClassifyMain(TrimRight(SeedLine(m))) == ClassifyMain(SeedLine(m))
  {
    assert SeedLabel[|SeedLabel| - 1] == ':';
    TrimLine(SeedLabel, m);
    assert AllSpace(Pad(m)) && AllSpace(" ");
    MainSeed(Pad(m), m);
    MainSeed(" ", m);
  }

  lemma TrimSeedLineGui(m: string)
    requires CleanValue(m)
    ensures TrimRight(SeedLine(m)) != []
    ensures ClassifyEntry(TrimRight(SeedLine(m))) == NoEntry
    ensures ClassifyEntry(SeedLine(m)) == NoEntry
  {
    assert SeedLabel[|SeedLabel| - 1] == ':';
    TrimLine(SeedLabel, m);
    assert AllSpace(Pad(m)) && AllSpace(" ");
    GuiSeed(Pad(m), m);
    GuiSeed(" ", m);
  }

  // ---------------------------------------------------------------------
  // Marker-free lines

  /** A line that can sit inside a record body: no newline, no marker. */
  predicate BodyLine(x: string) {
    '\n' !in x && !Contains(x, Marker)
  }

  lemma HeadBodyLine(ts: string)
    requires CleanStamp(ts)
    ensures BodyLine(" " + ts + " ===")
  {
    AppendNoContains(ts, " ===", Marker);
    PrependNoContains(" ", ts + " ===", Marker);
    assert " " + ts + " ===" == " " + (ts + " ===");
  }

  lemma SeedBodyLine(m: string)
    requires '\n' !in m && !Contains(m, Marker)
    ensures BodyLine(SeedLine(m))
  {
    PrependNoContains(SeedLabel + " ", m, Marker);
  }

  lemma AddressBodyLine(n: string, a: string)
    requires CleanValue(n) && CleanValue(a)
    ensures BodyLine(AddressLine(n, a))
  {
    assert AddressLine(n, a) == (n + " A") + ['d'] + ("dress: " + a);
    AppendNoContains(n, " A", Marker);
    PrependNoContains("dress: ", a, Marker);
    GlueNoContains(n + " A", 'd', "dress: " + a, Marker);
  }

  lemma BalanceBodyLine(n: string, b: string)
    requires CleanValue(n) && CleanValue(b)
    ensures BodyLine(BalanceLine(n, b))
  {
    assert BalanceLine(n, b) == (n + " B") + ['a'] + ("lance: " + b);
    AppendNoContains(n, " B", Marker);
    PrependNoContains("lance: ", b, Marker);
    GlueNoContains(n + " B", 'a', "lance: " + b, Marker);
  }
}
