/** Choosing the networks a run checks: the order-preserving filter against
    the configured networks that every front end applies, the
    comma-separated `--networks` option of the command-line tool, and the
    network check boxes of the desktop windows. */
module Networks {
  import opened PyStr
  import opened Dicts

  /** The keys of `API_CONFIG`, in definition order. */
  const ApiNetworks: seq<string> := ["BTC", "ETH", "BSC", "TRX"]

  /** `n in API_CONFIG` */
  const ApiKeys: set<string> := {"BTC", "ETH", "BSC", "TRX"}

  /** `[n for n in requested if n in allowed]` */
  function Filter(requested: seq<string>, allowed: set<string>): (r: seq<string>)
    ensures |r| <= |requested|
    ensures forall i :: 0 <= i < |r| ==> r[i] in allowed
    ensures forall n :: n in r <==> n in requested && n in allowed
    decreases |requested|
  {
    if |requested| == 0 then []
    else if requested[0] in allowed then [requested[0]] + Filter(requested[1..], allowed)
    else Filter(requested[1..], allowed)
  }

  /** The filter keeps the requested order. */
  lemma {:induction false} FilterSublist(requested: seq<string>, allowed: set<string>)
    ensures Sublist(Filter(requested, allowed), requested)
    decreases |requested|
  {
    if |requested| > 0 {
      var r := Filter(requested, allowed);
      FilterSublist(requested[1..], allowed);
      if requested[0] in allowed {
        assert r[0] == requested[0] && r[1..] == Filter(requested[1..], allowed);
      }
    }
  }

  /** The filter keeps every allowed name as often as it was requested, so
      duplicates survive, and drops every other name. */
  lemma {:induction false} FilterCounts(requested: seq<string>, allowed: set<string>)
    ensures forall n :: multiset(Filter(requested, allowed))[n]
                        == (if n in allowed then multiset(requested)[n] else 0)
    decreases |requested|
  {
    if |requested| > 0 {
      FilterCounts(requested[1..], allowed);
      assert requested == [requested[0]] + requested[1..];
      assert multiset(requested) == multiset([requested[0]]) + multiset(requested[1..]);
    }
  }

  /** A request made only of configured names passes unchanged. */
  lemma {:induction false} FilterAllAllowed(requested: seq<string>, allowed: set<string>)
    requires forall i :: 0 <= i < |requested| ==> requested[i] in allowed
    ensures Filter(requested, allowed) == requested
    decreases |requested|
  {
    if |requested| > 0 {
      FilterAllAllowed(requested[1..], allowed);
      assert [requested[0]] + requested[1..] == requested;
    }
  }

  // ---------------------------------------------------------------------
  // The `--networks` option of the command-line tool

  /** `n.strip().upper()` */
  function Normalize(part: string): (r: string)
    ensures r == [] <==> AllSpace(part)
  {
    Upper(Strip(part))
  }

  function NormalizeAll(parts: seq<string>): (r: seq<string>)
    ensures |r| == |parts|
    ensures forall i :: 0 <= i < |parts| ==> r[i] == Normalize(parts[i])
  {
    seq(|parts|, i requires 0 <= i < |parts| => Normalize(parts[i]))
  }

  /** Normalising is idempotent: a normalised item has no whitespace around
      it and no lower-case ASCII letter left. */
  lemma NormalizeTwice(part: string)
    ensures Normalize(Normalize(part)) == Normalize(part)
  {
    var t := Strip(part);
    UpperTrimmed(t);
    NormalizeName(Upper(t));
    UpperTwice(t);
  }

  /** Normalising every item twice is normalising it once. */
  lemma NormalizeAllTwice(parts: seq<string>)
    ensures NormalizeAll(NormalizeAll(parts)) == NormalizeAll(parts)
  {
    forall i | 0 <= i < |parts|
      ensures Normalize(NormalizeAll(parts)[i]) == NormalizeAll(parts)[i]
    {
      NormalizeTwice(parts[i]);
    }
  }

  /** `[net for net in [n.strip().upper() for n in option.split(',')] if net in API_CONFIG]` */
  function ParseNetworkOption(option: string): (r: seq<string>)
    ensures forall i :: 0 <= i < |r| ==> r[i] in ApiKeys
  {
    Filter(NormalizeAll(Split(option, ",")), ApiKeys)
  }

  /** The option is read item by item: for items free of commas, parsing
      their comma-joined text filters their normalised forms in order. */
  lemma ParseJoined(items: seq<string>)
    requires |items| >= 1
    requires forall i :: 0 <= i < |items| ==> ',' !in items[i]
    ensures ParseNetworkOption(Join(items, ",")) == Filter(NormalizeAll(items), ApiKeys)
  {
    PartsLackChar(items, ',');
    SplitJoin(items, ",");
  }

  /** An item names a network whatever its case and surrounding whitespace. */
  lemma NormalizePadded(w1: string, name: string, w2: string)
    requires AllSpace(w1) && AllSpace(w2) && IsTrimmed(name)
    ensures Normalize(w1 + name + w2) == Upper(name)
  {
    StripPadded(w1, name, w2);
  }

  /** A name without surrounding whitespace is only upper-cased. */
  lemma NormalizeName(name: string)
    requires IsTrimmed(name)
    ensures Normalize(name) == Upper(name)
  {
    StripPadded([], name, []);
    assert [] + name + [] == name;
  }

  lemma JoinFour(a: string, b: string, c: string, d: string, sep: string)
    ensures Join([a, b, c, d], sep) == a + sep + b + sep + c + sep + d
  {
    JoinThree(b, c, d, sep);
    assert [a, b, c, d][1..] == [b, c, d];
    assert Join([a, b, c, d], sep) == a + sep + Join([b, c, d], sep);
  }

  lemma JoinThree(a: string, b: string, c: string, sep: string)
    ensures Join([a, b, c], sep) == a + sep + b + sep + c
  {
    assert [a, b, c][1..] == [b, c];
    assert [b, c][1..] == [c];
    assert Join([c], sep) == c;
    assert Join([b, c], sep) == b + sep + c;
    assert Join([a, b, c], sep) == a + sep + Join([b, c], sep);
  }

  /** Items already in normal form are left as they are. */
  lemma NormalItems(items: seq<string>)
    requires forall i :: 0 <= i < |items| ==> IsTrimmed(items[i]) && Upper(items[i]) == items[i]
    ensures NormalizeAll(items) == items
  {
    forall i | 0 <= i < |items|
      ensures Normalize(items[i]) == items[i]
    {
      NormalizeName(items[i]);
    }
  }

  lemma ApiNetworksNormal()
    ensures forall i :: 0 <= i < |ApiNetworks| ==> IsTrimmed(ApiNetworks[i]) && Upper(ApiNetworks[i]) == ApiNetworks[i]
    ensures forall i :: 0 <= i < |ApiNetworks| ==> ',' !in ApiNetworks[i] && ApiNetworks[i] in ApiKeys
  {
  }

  /** The default option text `BTC,ETH,BSC,TRX` is the configured networks
      joined by commas. */
  lemma DefaultOptionText()
    ensures Join(ApiNetworks, ",") == "BTC,ETH,BSC,TRX"
  {
    JoinFour("BTC", "ETH", "BSC", "TRX", ",");
  }

  /** Configured names written in capitals, without spaces, separated by
      commas, parse back to exactly those names. */
  lemma NormalOption(items: seq<string>)
    requires |items| >= 1
    requires forall i :: 0 <= i < |items| ==> IsTrimmed(items[i]) && Upper(items[i]) == items[i]
    requires forall i :: 0 <= i < |items| ==> ',' !in items[i] && items[i] in ApiKeys
    ensures ParseNetworkOption(Join(items, ",")) == items
  {
    NormalItems(items);
    ParseJoined(items);
    FilterAllAllowed(items, ApiKeys);
  }

  /** The default option selects every configured network, in order. */
  lemma DefaultOption()
    ensures ParseNetworkOption(Join(ApiNetworks, ",")) == ApiNetworks
  {
    ApiNetworksNormal();
    NormalOption(ApiNetworks);
  }

  // ---------------------------------------------------------------------
  // Check boxes of the desktop windows

  /** `get_selected_networks`: the boxes are created in configuration order,
      so the checked networks come back in that order. */
  function SelectedNetworks(checked: set<string>): (r: seq<string>)
    ensures forall n :: n in r <==> n in ApiNetworks && n in checked
  {
    Filter(ApiNetworks, checked)
  }

  predicate Distinct(s: seq<string>) {
    forall i, j :: 0 <= i < j < |s| ==> s[i] != s[j]
  }

  /** Filtering a list without repetitions gives one without repetitions. */
  lemma {:induction false} FilterDistinct(requested: seq<string>, allowed: set<string>)
    requires Distinct(requested)
    ensures Distinct(Filter(requested, allowed))
    decreases |requested|
  {
    if |requested| > 0 {
      FilterDistinct(requested[1..], allowed);
      var rest := Filter(requested[1..], allowed);
      assert requested[0] !in requested[1..];
      assert requested[0] !in rest;
    }
  }

  /** The selection lists each checked network once, in configuration order. */
  lemma SelectionOrdered(checked: set<string>)
    ensures Sublist(SelectedNetworks(checked), ApiNetworks)
    ensures Distinct(SelectedNetworks(checked))
  {
    FilterSublist(ApiNetworks, checked);
    assert Distinct(ApiNetworks);
    FilterDistinct(ApiNetworks, checked);
  }

  /** "Select all" selects every network, "select none" an empty list, which
      a start request refuses. */
  lemma SelectAllNone()
    ensures SelectedNetworks(ApiKeys) == ApiNetworks
    ensures SelectedNetworks({}) == []
  {
    FilterAllAllowed(ApiNetworks, ApiKeys);
  }
}
