/** The unguarded `save_findings` of the web application, the command-line
    tool and the standalone tool, as the scanning loops call it: the balances
    come from the target networks only, while the addresses cover every
    network the generator derives. */
module UnguardedWriter {
  import opened PyStr
  import opened Dicts
  import opened WalletLog

  /** The networks the address generator always derives, in its order. */
  const Generated: seq<string> := ["BTC", "ETH", "BSC", "TRX"]

  /** What the scanning loop writes for a found wallet: balances are looked up
      for the target networks that have an address, then every address
      network is written. */
  function WorkerRecord(ts: string, m: string, targets: seq<string>, addrs: Dict, lookup: string -> string): Written {
    SaveFindingsUnguarded(ts, m, addrs, CollectBalances(targets, addrs, lookup))
  }

  /** The write fails exactly when some address network is not a target, and
      the network it fails on is one of those. */
  lemma WorkerFailsIff(ts: string, m: string, targets: seq<string>, addrs: Dict, lookup: string -> string)
    ensures WorkerRecord(ts, m, targets, addrs, lookup).keyError.None?
      <==> forall i :: 0 <= i < |addrs| ==> addrs[i].0 in targets
    ensures WorkerRecord(ts, m, targets, addrs, lookup).keyError.Some? ==>
      var n := WorkerRecord(ts, m, targets, addrs, lookup).keyError.value;
      n in Keys(addrs) && n !in targets
  {
    var bals := CollectBalances(targets, addrs, lookup);
    forall i | 0 <= i < |addrs|
      ensures addrs[i].0 in Keys(bals) <==> addrs[i].0 in targets
    {
      CollectBalancesKeys(targets, addrs, lookup, addrs[i].0);
      assert Keys(addrs)[i] == addrs[i].0;
    }
    var e := UnguardedEntries(addrs, bals);
    if e.keyError.Some? {
      CollectBalancesKeys(targets, addrs, lookup, e.keyError.value);
    }
  }

  /** When no lookup fails, the unguarded writer writes exactly what the
      guarded one writes. */
  lemma UnguardedAgrees(ts: string, m: string, addrs: Dict, bals: Dict)
    requires SaveFindingsUnguarded(ts, m, addrs, bals).keyError.None?
    ensures SaveFindingsUnguarded(ts, m, addrs, bals).text == SaveFindings(ts, m, addrs, bals)
  {
    var head := [HeaderLine(ts), SeedLine(m)];
    var e := EntryLines(addrs, bals);
    LinesAppend(head, e);
    LinesAppend(head + e, [""]);
    assert Lines([""]) == "\n" by {
      assert [""][1..] == [];
    }
  }

  /** The write stops at the first address network without a balance, right
      after writing that network's address line. */
  lemma SecondMissing(addrs: Dict, bals: Dict)
    requires |addrs| >= 2 && addrs[0].0 in Keys(bals) && addrs[1].0 !in Keys(bals)
    ensures UnguardedEntries(addrs, bals).keyError == Some(addrs[1].0)
    ensures UnguardedEntries(addrs, bals).text
      == Lines([AddressLine(addrs[0].0, addrs[0].1), BalanceLine(addrs[0].0, Get(bals, addrs[0].0).value),
                AddressLine(addrs[1].0, addrs[1].1)])
  {
    assert addrs[1..][0] == addrs[1];
    var first := [AddressLine(addrs[0].0, addrs[0].1), BalanceLine(addrs[0].0, Get(bals, addrs[0].0).value)];
    LinesAppend(first, [AddressLine(addrs[1].0, addrs[1].1)]);
    assert first + [AddressLine(addrs[1].0, addrs[1].1)]
      == [AddressLine(addrs[0].0, addrs[0].1), BalanceLine(addrs[0].0, Get(bals, addrs[0].0).value),
          AddressLine(addrs[1].0, addrs[1].1)];
  }

  /** With the standalone tool's default target list, every found wallet
      fails to be written: the lookup for `ETH`, the second generated network,
      raises a `KeyError` after the `ETH` address line is written, so the log
      is left with a record cut short after that line, with no closing blank
      line. */
  lemma DefaultTargetsFail(ts: string, m: string, a: seq<string>, lookup: string -> string)
    requires |a| == 4
    ensures var r := WorkerRecord(ts, m, ["BTC"], [(Generated[0], a[0]), (Generated[1], a[1]), (Generated[2], a[2]), (Generated[3], a[3])], lookup);
      && r.keyError == Some("ETH")
      && r.text == Lines([HeaderLine(ts), SeedLine(m), AddressLine("BTC", a[0]), BalanceLine("BTC", lookup("BTC")),
                          AddressLine("ETH", a[1])])
  {
    var addrs := [(Generated[0], a[0]), (Generated[1], a[1]), (Generated[2], a[2]), (Generated[3], a[3])];
    var bals := CollectBalances(["BTC"], addrs, lookup);
    assert Keys(addrs)[0] == "BTC";
    assert bals == [("BTC", lookup("BTC"))];
    CollectBalancesKeys(["BTC"], addrs, lookup, "BTC");
    CollectBalancesKeys(["BTC"], addrs, lookup, "ETH");
    assert "ETH" != "BTC";
    SecondMissing(addrs, bals);
    var head := [HeaderLine(ts), SeedLine(m)];
    var entries := [AddressLine("BTC", a[0]), BalanceLine("BTC", lookup("BTC")), AddressLine("ETH", a[1])];
    LinesAppend(head, entries);
    assert head + entries == [HeaderLine(ts), SeedLine(m), AddressLine("BTC", a[0]), BalanceLine("BTC", lookup("BTC")),
                              AddressLine("ETH", a[1])];
  }
}
