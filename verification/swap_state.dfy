/**
  The state of the swap form hook (src/problem2/src/hooks/useSwapForm.ts) and the token
  catalog it loads.

  Each `useState` of the hook is a field of `State`; the loading flag is left out because
  loading is one step here. The token catalog is built from a price table, one token per
  symbol of `COMMON_TOKENS`, and the form then gets its default pair.
*/
module SwapState {
  import opened Wrappers
  import opened Seqs
  import Api

  /** `Token`: the price is absent when the price table has no entry for the symbol. */
  datatype Token = Token(symbol: string, name: string, price: Option<real>, iconUrl: string)

  /** `SwapFormData`: `null` tokens are `None`; the amount is the text of the input field. */
  datatype Form = Form(fromToken: Option<Token>, toToken: Option<Token>, fromAmount: string)

  /** `ValidationError['field']`. */
  datatype Field = FromTokenField | ToTokenField | FromAmountField | ToAmountField

  datatype ValidationError = ValidationError(field: Field, message: string)

  /** `SuccessSwapData`: the formatted amounts and symbols of the last completed swap. */
  datatype Snapshot = Snapshot(fromAmount: string, fromSymbol: string, toAmount: string, toSymbol: string)

  /** `TokenBalances`: the simulated wallet. */
  type Balances = map<string, real>

  datatype State = State(
    tokens: seq<Token>,        // availableTokens
    form: Form,                // formData
    errors: seq<ValidationError>,
    balances: Balances,
    modalOpen: bool,           // isSuccessModalOpen
    snapshot: Option<Snapshot>) // successSwapData

  const COMMON_TOKENS: seq<string> := [
    "SWTH", "ETH", "BTC", "USDC", "USDT", "BNB", "SOL", "ADA",
    "DOT", "MATIC", "AVAX", "LINK", "UNI", "ATOM", "XRP"
  ]

  const TOKEN_NAMES: map<string, string> := map[
    "SWTH" := "Switcheo", "ETH" := "Ethereum", "BTC" := "Bitcoin", "USDC" := "USD Coin",
    "USDT" := "Tether", "BNB" := "Binance Coin", "SOL" := "Solana", "ADA" := "Cardano",
    "DOT" := "Polkadot", "MATIC" := "Polygon", "AVAX" := "Avalanche", "LINK" := "Chainlink",
    "UNI" := "Uniswap", "ATOM" := "Cosmos", "XRP" := "Ripple"
  ]

  const INITIAL_BALANCES: Balances := map[
    "BTC" := 12.34, "ETH" := 25.12, "SWTH" := 125000.0, "USDC" := 3421.55,
    "USDT" := 1984.44, "BNB" := 80.25, "SOL" := 320.5, "ADA" := 4500.0,
    "DOT" := 980.2, "MATIC" := 5100.67, "AVAX" := 150.12, "LINK" := 900.78,
    "UNI" := 1120.45, "ATOM" := 640.33, "XRP" := 8600.0
  ]

  const DEFAULT_FORM: Form := Form(None, None, "")

  /** The hook's state before the catalog is loaded. */
  const INITIAL_STATE: State := State([], DEFAULT_FORM, [], INITIAL_BALANCES, false, None)

  // ---------------------------------------------------------------------------
  // Catalog
  // ---------------------------------------------------------------------------

  /** `TOKEN_NAMES[symbol] || symbol`. */
  function TokenName(symbol: string): string {
    if symbol in TOKEN_NAMES && TOKEN_NAMES[symbol] != "" then TOKEN_NAMES[symbol] else symbol
  }

  function PriceOf(prices: Api.PriceTable, symbol: string): Option<real> {
    if symbol in prices then Some(prices[symbol]) else None
  }

  /** The token the catalog holds for `symbol`. */
  function MakeToken(prices: Api.PriceTable, symbol: string): Token {
    Token(symbol, TokenName(symbol), PriceOf(prices, symbol), Api.GetTokenIconUrl(symbol))
  }

  /** `COMMON_TOKENS.map(...)`: one token per symbol, in order. */
  function BuildTokens(prices: Api.PriceTable, symbols: seq<string>): (tokens: seq<Token>)
    ensures |tokens| == |symbols|
  {
    if symbols == [] then [] else [MakeToken(prices, symbols[0])] + BuildTokens(prices, symbols[1..])
  }

  /** The catalog built from a price table. */
  function BuildCatalog(prices: Api.PriceTable): seq<Token> {
    BuildTokens(prices, COMMON_TOKENS)
  }

  // ---------------------------------------------------------------------------
  // Default pair
  // ---------------------------------------------------------------------------

  /** `tokens.find((t) => t.symbol === 'BTC') || tokens[0] || null`. */
  function DefaultSource(tokens: seq<Token>): (source: Option<Token>)
    ensures source.None? <==> tokens == []
    ensures source.Some? ==> source.value in tokens
  {
    match Find(tokens, (t: Token) => t.symbol == "BTC")
    case Some(t) => Some(t)
    case None => if tokens == [] then None else Some(tokens[0])
  }

  /** `btcToken?.symbol`. */
  function SymbolOf(token: Option<Token>): Option<string> {
    match token
    case Some(t) => Some(t.symbol)
    case None => None
  }

  /**
    The destination: the first USDT that is not the source, otherwise the first token whose
    symbol differs from the source's (any token when there is no source), otherwise none.
  */
  function DefaultDestination(tokens: seq<Token>, source: Option<Token>): (dest: Option<Token>)
    ensures dest.Some? ==> dest.value in tokens && SymbolOf(source) != Some(dest.value.symbol)
    ensures dest.None? <==> forall i | 0 <= i < |tokens| :: SymbolOf(source) == Some(tokens[i].symbol)
  {
    var other := (t: Token) => SymbolOf(source) != Some(t.symbol);
    match Find(tokens, (t: Token) => t.symbol == "USDT" && other(t))
    case Some(t) => Some(t)
    case None => Find(tokens, other)
  }

  /** `setDefaultTokens(tokens)`: the default pair and an empty amount. */
  function DefaultForm(tokens: seq<Token>): Form {
    var source := DefaultSource(tokens);
    Form(source, DefaultDestination(tokens, source), "")
  }

  /**
    `loadTokenData`: the catalog from the fetched prices, or the same catalog without any
    price when the fetch threw (`None`), and the default pair. Balances, errors and the modal are untouched.
  */
  function Load(s: State, fetched: Option<Api.PriceTable>): (t: State)
    ensures t.tokens == BuildCatalog(fetched.GetOr(map[]))
    ensures t.form == DefaultForm(t.tokens)
    ensures t.balances == s.balances && t.errors == s.errors
    ensures t.modalOpen == s.modalOpen && t.snapshot == s.snapshot
  {
    WithCatalog(s, BuildCatalog(fetched.GetOr(map[])))
  }

  /** The state once `tokens` is the catalog: the default pair is selected. */
  function WithCatalog(s: State, tokens: seq<Token>): (t: State)
    ensures t.tokens == tokens && t.form == DefaultForm(tokens)
    ensures t.balances == s.balances && t.errors == s.errors
    ensures t.modalOpen == s.modalOpen && t.snapshot == s.snapshot
  {
    s.(tokens := tokens, form := DefaultForm(tokens))
  }
}
