/**
  The price and exchange helpers of the swap form (src/problem2/src/utils/api.ts).

  The two HTTP fetches are not performed: each is given as its outcome, a `Fetched` value
  that is either the decoded JSON body or one of the two ways the request can fail. What
  remains is pure logic over maps: the CoinGecko id-to-symbol translation, the choice
  between the two sources, the exchange arithmetic and the icon URL.
*/
module Api {
  import opened Wrappers

  const TOKEN_ICON_BASE_URL: string := "https://raw.githubusercontent.com/Switcheo/token-icons/main/tokens"

  /** Token symbols and their CoinGecko ids, in declaration order. */
  const COINGECKO_IDS: seq<(string, string)> := [
    ("SWTH", "switcheo"),
    ("ETH", "ethereum"),
    ("BTC", "bitcoin"),
    ("USDC", "usd-coin"),
    ("USDT", "tether"),
    ("BNB", "binancecoin"),
    ("SOL", "solana"),
    ("ADA", "cardano"),
    ("DOT", "polkadot"),
    ("MATIC", "matic-network"),
    ("AVAX", "avalanche-2"),
    ("LINK", "chainlink"),
    ("UNI", "uniswap"),
    ("ATOM", "cosmos"),
    ("XRP", "ripple")
  ]

  /** USD price per token symbol (`TokenPrice`). */
  type PriceTable = map<string, real>

  /**
    A CoinGecko `simple/price` body: for each id it lists, the `usd` field when the body
    defines one.
  */
  type CoinGeckoBody = map<string, Option<real>>

  /** The outcome of one `fetch` followed by `response.json()`. */
  datatype Fetched<T> =
    | Ok(body: T)             // status 2xx and a body that decoded
    | BadStatus(status: int)  // `!response.ok`
    | Failed                  // `fetch` or `json()` rejected

  // ---------------------------------------------------------------------------
  // Exchange arithmetic
  // ---------------------------------------------------------------------------

  /** `calculateExchangeRate`: units of the destination per unit of the source; 0 for a zero price. */
  function CalculateExchangeRate(fromPrice: real, toPrice: real): (rate: real)
    ensures toPrice == 0.0 ==> rate == 0.0
    ensures toPrice != 0.0 ==> rate * toPrice == fromPrice
  {
    if toPrice == 0.0 then 0.0 else fromPrice / toPrice
  }

  /** `calculateToAmount`. */
  function CalculateToAmount(fromAmount: real, exchangeRate: real): (toAmount: real)
    ensures exchangeRate != 0.0 ==> toAmount / exchangeRate == fromAmount
    ensures fromAmount > 0.0 && exchangeRate > 0.0 ==> toAmount > 0.0
  {
    fromAmount * exchangeRate
  }

  /** Converting at the rate of two prices is the amount times their quotient. */
  lemma ToAmountAtRate(amount: real, fromPrice: real, toPrice: real)
    requires toPrice != 0.0
    ensures CalculateToAmount(amount, CalculateExchangeRate(fromPrice, toPrice))
            == amount * fromPrice / toPrice
  {
    var rate := CalculateExchangeRate(fromPrice, toPrice);
    calc {
      CalculateToAmount(amount, rate) * toPrice;
      amount * (rate * toPrice);
      amount * fromPrice;
    }
  }

  /** The USD value of what is received equals the USD value of what is given. */
  lemma ToAmountKeepsValue(amount: real, fromPrice: real, toPrice: real)
    requires toPrice != 0.0
    ensures CalculateToAmount(amount, CalculateExchangeRate(fromPrice, toPrice)) * toPrice
            == amount * fromPrice
  {
    var rate := CalculateExchangeRate(fromPrice, toPrice);
    assert CalculateToAmount(amount, rate) * toPrice == amount * (rate * toPrice);
  }

  /** Positive prices give a positive rate, and a positive amount a positive result. */
  lemma PositiveConversion(amount: real, fromPrice: real, toPrice: real)
    requires fromPrice > 0.0 && toPrice > 0.0
    ensures CalculateExchangeRate(fromPrice, toPrice) > 0.0
    ensures amount > 0.0 ==> CalculateToAmount(amount, CalculateExchangeRate(fromPrice, toPrice)) > 0.0
  {
  }

  // ---------------------------------------------------------------------------
  // Icon URL
  // ---------------------------------------------------------------------------

  /** `String.prototype.toUpperCase` on one character (ASCII letters only). */
  function UpperChar(c: char): char {
    if 'a' <= c <= 'z' then (c as int - 'a' as int + 'A' as int) as char else c
  }

  function ToUpper(s: string): (u: string)
    ensures |u| == |s|
    ensures forall i | 0 <= i < |s| :: u[i] == UpperChar(s[i])
  {
    if s == [] then [] else [UpperChar(s[0])] + ToUpper(s[1..])
  }

  /** `getTokenIconUrl(symbol)`. */
  function GetTokenIconUrl(symbol: string): (url: string)
    ensures TOKEN_ICON_BASE_URL + "/" <= url
    ensures |url| == |TOKEN_ICON_BASE_URL| + |symbol| + 5 && url[|url| - 4..] == ".svg"
    ensures url[|TOKEN_ICON_BASE_URL| + 1..|url| - 4] == ToUpper(symbol)
  {
    TOKEN_ICON_BASE_URL + "/" + ToUpper(symbol) + ".svg"
  }

  /** Two symbols share an icon exactly when they are equal up to letter case. */
  lemma IconUrlSameIff(a: string, b: string)
    ensures GetTokenIconUrl(a) == GetTokenIconUrl(b) <==> ToUpper(a) == ToUpper(b)
  {
    var prefix := TOKEN_ICON_BASE_URL + "/";
    if GetTokenIconUrl(a) == GetTokenIconUrl(b) {
      var ua, ub := GetTokenIconUrl(a), GetTokenIconUrl(b);
      assert |ToUpper(a)| == |ToUpper(b)|;
      forall i | 0 <= i < |ToUpper(a)|
        ensures ToUpper(a)[i] == ToUpper(b)[i]
      {
        assert ua[|prefix| + i] == ToUpper(a)[i];
        assert ub[|prefix| + i] == ToUpper(b)[i];
      }
    }
  }

  /** The icon URL ignores the casing of the symbol. */
  lemma IconUrlIgnoresCase(symbol: string)
    ensures GetTokenIconUrl(ToUpper(symbol)) == GetTokenIconUrl(symbol)
  {
    assert ToUpper(ToUpper(symbol)) == ToUpper(symbol);
  }

  /** The URL is the icon directory, a slash, the symbol without lower-case letters, ".svg". */
  lemma IconUrlShape(symbol: string)
    ensures var url := GetTokenIconUrl(symbol);
            && TOKEN_ICON_BASE_URL + "/" <= url
            && url[|url| - 4..] == ".svg"
            && |url| == |TOKEN_ICON_BASE_URL| + |symbol| + 5
            && url[|TOKEN_ICON_BASE_URL| + 1..|url| - 4] == ToUpper(symbol)
            && forall i | |TOKEN_ICON_BASE_URL| + 1 <= i < |url| - 4 :: !('a' <= url[i] <= 'z')
  {
    var url := GetTokenIconUrl(symbol);
    var n := |TOKEN_ICON_BASE_URL| + 1;
    forall i | n <= i < |url| - 4
      ensures !('a' <= url[i] <= 'z')
    {
      assert url[i] == ToUpper(symbol)[i - n];
    }
  }

  // ---------------------------------------------------------------------------
  // Price sources
  // ---------------------------------------------------------------------------

  /** CoinGecko quotes a USD price for `id`: `data[id] && data[id].usd !== undefined`. */
  predicate Quoted(data: CoinGeckoBody, id: string) {
    id in data && data[id].Some?
  }

  /** Entry `i` of the table names `sym` with a quoted id. */
  predicate QuotedAt(data: CoinGeckoBody, ids: seq<(string, string)>, sym: string, i: int) {
    0 <= i < |ids| && ids[i].0 == sym && Quoted(data, ids[i].1)
  }

  /** Entry `i` is the last entry that names its symbol with a quoted id. */
  predicate LastQuoted(data: CoinGeckoBody, ids: seq<(string, string)>, i: int) {
    0 <= i < |ids| && QuotedAt(data, ids, ids[i].0, i) && forall j | i < j < |ids| :: !QuotedAt(data, ids, ids[i].0, j)
  }

  /**
    The `forEach` over the id table: every symbol whose id is quoted gets that quote, later
    entries overwriting earlier ones for the same symbol.
  */
  function Translate(data: CoinGeckoBody, ids: seq<(string, string)>): (prices: PriceTable)
    ensures forall sym | sym in prices :: exists i :: QuotedAt(data, ids, sym, i)
  {
    if ids == [] then map[]
    else
      var prev := Translate(data, ids[..|ids| - 1]);
      QuotedInPrefix(data, ids[..|ids| - 1], ids, prev);
      var (sym, id) := ids[|ids| - 1];
      if Quoted(data, id) then
        assert QuotedAt(data, ids, sym, |ids| - 1);
        prev[sym := data[id].value]
      else prev
  }

  /** A symbol quoted by an entry of a prefix of the table is quoted by an entry of the table. */
  lemma QuotedInPrefix(data: CoinGeckoBody, init: seq<(string, string)>, ids: seq<(string, string)>, prev: PriceTable)
    requires init <= ids
    requires forall sym | sym in prev :: exists i :: QuotedAt(data, init, sym, i)
    ensures forall sym | sym in prev :: exists i :: QuotedAt(data, ids, sym, i)
  {
    forall sym | sym in prev
      ensures exists i :: QuotedAt(data, ids, sym, i)
    {
      var i :| QuotedAt(data, init, sym, i);
      assert QuotedAt(data, ids, sym, i);
    }
  }

  /** A symbol gets a price exactly when some entry names it with a quoted id. */
  lemma {:induction false} TranslateKeys(data: CoinGeckoBody, ids: seq<(string, string)>, sym: string)
    ensures sym in Translate(data, ids) <==> exists i :: QuotedAt(data, ids, sym, i)
  {
    if ids != [] {
      var init := ids[..|ids| - 1];
      TranslateKeys(data, init, sym);
      var (last, id) := ids[|ids| - 1];
      if last == sym && Quoted(data, id) {
        assert QuotedAt(data, ids, sym, |ids| - 1);
      }
      if exists i :: QuotedAt(data, init, sym, i) {
        var i :| QuotedAt(data, init, sym, i);
        assert QuotedAt(data, ids, sym, i);
      }
      if exists i :: QuotedAt(data, ids, sym, i) {
        var i :| QuotedAt(data, ids, sym, i);
        if i < |ids| - 1 {
          assert QuotedAt(data, init, sym, i);
        }
      }
    }
  }

  /** The price of a symbol is the quote of the last entry naming it with a quoted id. */
  lemma {:induction false} TranslateValue(data: CoinGeckoBody, ids: seq<(string, string)>, i: int)
    requires 0 <= i < |ids| && LastQuoted(data, ids, i)
    ensures ids[i].0 in Translate(data, ids)
    ensures Translate(data, ids)[ids[i].0] == data[ids[i].1].value
  {
    var init := ids[..|ids| - 1];
    if i < |ids| - 1 {
      assert LastQuoted(data, init, i) by {
        forall j | i < j < |init|
          ensures !QuotedAt(data, init, init[i].0, j)
        {
          assert !QuotedAt(data, ids, ids[i].0, j);
        }
      }
      TranslateValue(data, init, i);
      assert !QuotedAt(data, ids, ids[i].0, |ids| - 1);
    }
  }

  /** No two entries of the table name the same symbol. */
  predicate DistinctSymbols(ids: seq<(string, string)>) {
    forall i, j | 0 <= i < j < |ids| :: ids[i].0 != ids[j].0
  }

  lemma CoinGeckoIdsDistinct()
    ensures DistinctSymbols(COINGECKO_IDS)
  {
  }

  /** `fetchCoinGeckoPrices`: the translated body, or `{}` after any failure. */
  function FetchCoinGeckoPrices(response: Fetched<CoinGeckoBody>): (prices: PriceTable)
    ensures !response.Ok? ==> prices == map[]
    ensures response.Ok? ==> forall sym | sym in prices :: exists i :: QuotedAt(response.body, COINGECKO_IDS, sym, i)
  {
    match response
    case Ok(data) => Translate(data, COINGECKO_IDS)
    case _ => map[]
  }

  /** `fetchOriginalPrices`: the body as a price table, or `{}` after any failure. */
  function FetchOriginalPrices(response: Fetched<PriceTable>): (prices: PriceTable)
    ensures response.Ok? ==> prices == response.body
    ensures !response.Ok? ==> prices == map[]
  {
    match response
    case Ok(data) => data
    case _ => map[]
  }

  /**
    `fetchTokenPrices`: the CoinGecko table when it has a price, otherwise the original
    API's table (which is `{}` when that is empty too).
  */
  function FetchTokenPrices(coinGecko: Fetched<CoinGeckoBody>, original: Fetched<PriceTable>): (prices: PriceTable)
    ensures |FetchCoinGeckoPrices(coinGecko)| > 0 ==> prices == FetchCoinGeckoPrices(coinGecko)
    ensures |FetchCoinGeckoPrices(coinGecko)| == 0 ==> prices == FetchOriginalPrices(original)
  {
    var fromCoinGecko := FetchCoinGeckoPrices(coinGecko);
    if |fromCoinGecko| > 0 then fromCoinGecko
    else
      var fromOriginal := FetchOriginalPrices(original);
      if |fromOriginal| > 0 then fromOriginal else map[]
  }

  /**
    The CoinGecko translation: a listed symbol has a price exactly when its id is quoted,
    and then it is the quoted `usd` value; nothing else has a price.
  */
  lemma CoinGeckoTranslation(data: CoinGeckoBody)
    ensures var prices := FetchCoinGeckoPrices(Ok(data));
            && (forall sym | sym in prices :: exists i :: QuotedAt(data, COINGECKO_IDS, sym, i))
            && forall i | 0 <= i < |COINGECKO_IDS| ::
                 && (COINGECKO_IDS[i].0 in prices <==> Quoted(data, COINGECKO_IDS[i].1))
                 && (COINGECKO_IDS[i].0 in prices ==> prices[COINGECKO_IDS[i].0] == data[COINGECKO_IDS[i].1].value)
  {
    var ids := COINGECKO_IDS;
    var prices := Translate(data, ids);
    CoinGeckoIdsDistinct();
    forall sym | sym in prices
      ensures exists i :: QuotedAt(data, ids, sym, i)
    {
      TranslateKeys(data, ids, sym);
    }
    forall i | 0 <= i < |ids|
      ensures ids[i].0 in prices <==> Quoted(data, ids[i].1)
      ensures ids[i].0 in prices ==> prices[ids[i].0] == data[ids[i].1].value
    {
      TranslateKeys(data, ids, ids[i].0);
      if Quoted(data, ids[i].1) {
        assert QuotedAt(data, ids, ids[i].0, i);
      }
      if ids[i].0 in prices {
        var k :| QuotedAt(data, ids, ids[i].0, k);
        assert k == i;
        TranslateValue(data, ids, i);
      }
    }
  }

  /** A non-empty CoinGecko table is used without consulting the fallback. */
  lemma CoinGeckoFirst(coinGecko: Fetched<CoinGeckoBody>, a: Fetched<PriceTable>, b: Fetched<PriceTable>)
    requires |FetchCoinGeckoPrices(coinGecko)| > 0
    ensures FetchTokenPrices(coinGecko, a) == FetchTokenPrices(coinGecko, b) == FetchCoinGeckoPrices(coinGecko)
  {
  }

  /** Failures are absorbed: when neither source answers, the result is the empty table. */
  lemma FailuresGiveEmpty(coinGecko: Fetched<CoinGeckoBody>, original: Fetched<PriceTable>)
    requires !coinGecko.Ok? && !original.Ok?
    ensures FetchTokenPrices(coinGecko, original) == map[]
  {
  }

  /** Every price comes from one of the two sources. */
  lemma PricesFromASource(coinGecko: Fetched<CoinGeckoBody>, original: Fetched<PriceTable>)
    ensures var prices := FetchTokenPrices(coinGecko, original);
            prices == FetchCoinGeckoPrices(coinGecko) || prices == FetchOriginalPrices(original)
  {
  }
}
