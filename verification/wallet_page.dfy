/**
  The balance list of the wallet page (src/problem3/MessyReact.tsx): balances on a chain
  without a priority, or with no positive amount, are dropped; the rest are sorted by chain
  priority, highest first; each row gets its amount printed with two decimals and its value
  in US dollars.

  The wallet and price hooks are inputs: `balances` is the list the wallet hook returns and
  `prices` the table the price hook returns.
*/
module WalletPage {
  import opened Wrappers
  import opened Numerals
  import opened Seqs
  import opened StableSort
  import Format

  datatype WalletBalance = WalletBalance(currency: string, blockchain: string, amount: real)

  /** A balance with its two-decimal rendering and its value in US dollars. */
  datatype FormattedWalletBalance =
    FormattedWalletBalance(currency: string, blockchain: string, amount: real, formatted: string, usdValue: real)

  const PRIORITY_MAP: map<string, int> :=
    map["Osmosis" := 100, "Ethereum" := 50, "Arbitrum" := 30, "Zilliqa" := 20, "Neo" := 20]

  /** The priority of a chain: its table entry, at least 20; -1 for a chain the table does not list. */
  function GetPriority(blockchain: string): (p: int)
    ensures blockchain in PRIORITY_MAP ==> p == PRIORITY_MAP[blockchain] >= 20
    ensures blockchain !in PRIORITY_MAP ==> p == -1
    ensures p >= 0 <==> blockchain in PRIORITY_MAP
  {
    if blockchain in PRIORITY_MAP then PRIORITY_MAP[blockchain] else -1
  }

  function Priority(b: WalletBalance): int {
    GetPriority(b.blockchain)
  }

  /** The filter of the pipeline: a listed chain and a positive amount. */
  predicate Keep(b: WalletBalance): (kept: bool)
    ensures kept <==> b.blockchain in PRIORITY_MAP && b.amount > 0.0
  {
    Priority(b) >= 0 && b.amount > 0.0
  }

  /** `prices[currency] ?? 0`. */
  function PriceOrZero(prices: map<string, real>, currency: string): (price: real)
    ensures currency in prices ==> price == prices[currency]
    ensures currency !in prices ==> price == 0.0
  {
    if currency in prices then prices[currency] else 0.0
  }

  /** The map step: the balance's fields, `amount.toFixed(2)` and the dollar value. */
  function FormatRow(r: Format.Renderer, prices: map<string, real>, b: WalletBalance): (row: FormattedWalletBalance)
    ensures Source(row) == b
    ensures row.currency in prices ==> row.usdValue == prices[row.currency] * row.amount
    ensures row.currency !in prices ==> row.usdValue == 0.0
    ensures row.formatted == Format.ToFixed(r, row.amount, 2)
  {
    FormattedWalletBalance(b.currency, b.blockchain, b.amount,
                           Format.ToFixed(r, b.amount, 2), PriceOrZero(prices, b.currency) * b.amount)
  }

  /** The balance a row was made from. */
  function Source(row: FormattedWalletBalance): WalletBalance {
    WalletBalance(row.currency, row.blockchain, row.amount)
  }

  /** The `useMemo` computation: filter, then sort by priority, then map. */
  function FormattedBalances(r: Format.Renderer, prices: map<string, real>, balances: seq<WalletBalance>)
    : (rows: seq<FormattedWalletBalance>)
    ensures |rows| <= |balances|
  {
    var sorted := SortDesc(Filter(balances, Keep), Priority);
    seq(|sorted|, i requires 0 <= i < |sorted| => FormatRow(r, prices, sorted[i]))
  }

  /** The balances the rows were made from, in row order. */
  function Sources(rows: seq<FormattedWalletBalance>): (s: seq<WalletBalance>)
    ensures |s| == |rows|
  {
    seq(|rows|, i requires 0 <= i < |rows| => Source(rows[i]))
  }

  // ---------------------------------------------------------------------------
  // Lemmas
  // ---------------------------------------------------------------------------

  /** The table itself: Osmosis, Ethereum, Arbitrum, then Zilliqa and Neo tied. */
  lemma PriorityTable()
    ensures GetPriority("Osmosis") == 100 && GetPriority("Ethereum") == 50 && GetPriority("Arbitrum") == 30
    ensures GetPriority("Zilliqa") == 20 && GetPriority("Neo") == 20
  {
  }

  /** The rows are made from the kept balances, sorted; nothing else goes into them. */
  lemma SourcesOfRows(r: Format.Renderer, prices: map<string, real>, balances: seq<WalletBalance>)
    ensures Sources(FormattedBalances(r, prices, balances)) == SortDesc(Filter(balances, Keep), Priority)
  {
  }

  /** The rows are in non-increasing priority order. */
  lemma RowsSorted(r: Format.Renderer, prices: map<string, real>, balances: seq<WalletBalance>)
    ensures SortedDesc(Sources(FormattedBalances(r, prices, balances)), Priority)
  {
    SourcesOfRows(r, prices, balances);
    SortSorted(Filter(balances, Keep), Priority);
  }

  /** The rows are a permutation of the kept balances: none added, none duplicated, none lost. */
  lemma RowsPermuteKept(r: Format.Renderer, prices: map<string, real>, balances: seq<WalletBalance>)
    ensures multiset(Sources(FormattedBalances(r, prices, balances))) == multiset(Filter(balances, Keep))
  {
    SourcesOfRows(r, prices, balances);
    SortPermutes(Filter(balances, Keep), Priority);
  }

  /** A balance gets a row exactly when it is on a listed chain with a positive amount. */
  lemma RowMembers(r: Format.Renderer, prices: map<string, real>, balances: seq<WalletBalance>, b: WalletBalance)
    ensures b in Sources(FormattedBalances(r, prices, balances)) <==> b in balances && Keep(b)
  {
    SourcesOfRows(r, prices, balances);
    SortMembers(Filter(balances, Keep), Priority, b);
  }

  /**
    Balances of equal priority (Zilliqa and Neo share 20) keep their input order: the rows of
    any one priority are the kept balances of that priority, in order.
  */
  lemma RowsStable(r: Format.Renderer, prices: map<string, real>, balances: seq<WalletBalance>, k: int)
    ensures Filter(Sources(FormattedBalances(r, prices, balances)), HasKey(Priority, k))
            == Filter(Filter(balances, HasKey(Priority, k)), Keep)
  {
    SourcesOfRows(r, prices, balances);
    SortStable(Filter(balances, Keep), Priority, k);
    FilterCommutes(balances, Keep, HasKey(Priority, k));
  }

  /**
    Each row carries its balance's fields unchanged, a dollar value of the price (0 when the
    table has none) times the amount, and the amount printed with two decimals.
  */
  lemma RowValues(r: Format.Renderer, prices: map<string, real>, balances: seq<WalletBalance>, i: int)
    requires 0 <= i < |FormattedBalances(r, prices, balances)|
    ensures var row := FormattedBalances(r, prices, balances)[i];
            && (row.currency in prices ==> row.usdValue == prices[row.currency] * row.amount)
            && (row.currency !in prices ==> row.usdValue == 0.0)
            && row.formatted == Format.ToFixed(r, row.amount, 2)
            && row.amount > 0.0 && Priority(Source(row)) >= 0
  {
    RowOf(r, prices, balances, i);
    SortedKept(balances, i);
  }

  /** Every balance the sort hands to the map step passed the filter. */
  lemma SortedKept(balances: seq<WalletBalance>, i: int)
    requires 0 <= i < |SortDesc(Filter(balances, Keep), Priority)|
    ensures Keep(SortDesc(Filter(balances, Keep), Priority)[i])
  {
    var kept := Filter(balances, Keep);
    var b := SortDesc(kept, Priority)[i];
    SortMembers(kept, Priority, b);
    FilterMember(balances, Keep, b);
  }

  /** Row `i` is made from the `i`-th balance of the sorted kept list. */
  lemma RowOf(r: Format.Renderer, prices: map<string, real>, balances: seq<WalletBalance>, i: int)
    requires 0 <= i < |FormattedBalances(r, prices, balances)|
    ensures FormattedBalances(r, prices, balances)[i] == FormatRow(r, prices, SortDesc(Filter(balances, Keep), Priority)[i])
  {
  }

  /**
    When `toFixed(2)` writes two decimals, a row's `formatted` is digits, a point and two
    digits, and reads back as the numeral `toFixed` produced for the amount.
  */
  lemma RowFormatted(r: Format.Renderer, prices: map<string, real>, b: WalletBalance)
    requires Format.WritesRequestedDecimals(r) && b.amount > 0.0
    ensures var t := FormatRow(r, prices, b).formatted;
            && |t| >= 4 && t[|t| - 3] == '.' && AllDigits(t[|t| - 2..])
            && ParseFloat(t) == Some(NumeralValue(r.fixedDigits(b.amount, 2)))
  {
    var n := r.fixedDigits(b.amount, 2);
    assert |n.frac| == 2;
    var t := FormatRow(r, prices, b).formatted;
    assert t == n.whole + "." + n.frac;
    assert t[|t| - 2..] == n.frac;
    ParseSignedNumeral(false, n);
  }
}
