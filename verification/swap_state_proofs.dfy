/** What the swap form hook's catalog and default pair guarantee. */
module SwapStateProofs {
  import opened Wrappers
  import opened Seqs
  import opened SwapState
  import Api

  /** The source is the first BTC if there is one, otherwise the first token, otherwise none. */
  lemma DefaultSourceChoice(tokens: seq<Token>)
    ensures var source := DefaultSource(tokens);
            && (source.None? <==> tokens == [])
            && (source.Some? ==> source.value in tokens)
            && ((exists i | 0 <= i < |tokens| :: tokens[i].symbol == "BTC") ==>
                  source.Some? && source.value.symbol == "BTC")
            && ((forall i | 0 <= i < |tokens| :: tokens[i].symbol != "BTC") && tokens != [] ==>
                  source == Some(tokens[0]))
  {
    var isBtc := (t: Token) => t.symbol == "BTC";
    match FindIndex(tokens, isBtc)
    case Some(k) =>
    case None =>
  }

  /**
    The destination is never the source's symbol; it is a USDT whenever the catalog has a
    USDT other than the source; and it is absent only when every token has the source's
    symbol.
  */
  lemma DefaultDestinationChoice(tokens: seq<Token>, source: Option<Token>)
    ensures var dest := DefaultDestination(tokens, source);
            && (dest.Some? ==> dest.value in tokens && SymbolOf(source) != Some(dest.value.symbol))
            && ((exists i | 0 <= i < |tokens| :: tokens[i].symbol == "USDT" && SymbolOf(source) != Some("USDT"))
                  ==> dest.Some? && dest.value.symbol == "USDT")
            && (dest.None? <==> forall i | 0 <= i < |tokens| :: SymbolOf(source) == Some(tokens[i].symbol))
  {
    var other := (t: Token) => SymbolOf(source) != Some(t.symbol);
    var isUsdt := (t: Token) => t.symbol == "USDT" && other(t);
    match FindIndex(tokens, isUsdt)
    case Some(k) =>
    case None =>
      match FindIndex(tokens, other)
      case Some(j) =>
      case None =>
  }

  /** The default pair: never the same symbol twice, and a source whenever there are tokens. */
  lemma DefaultFormPair(tokens: seq<Token>)
    ensures var form := DefaultForm(tokens);
            && form.fromAmount == ""
            && (tokens != [] ==> form.fromToken.Some?)
            && (form.fromToken.Some? && form.toToken.Some? ==>
                  form.fromToken.value.symbol != form.toToken.value.symbol)
  {
    DefaultSourceChoice(tokens);
    DefaultDestinationChoice(tokens, DefaultSource(tokens));
  }

  /** The listed symbols the default pair is chosen among. */
  lemma CommonTokensFacts()
    ensures |COMMON_TOKENS| == 15 && COMMON_TOKENS[2] == "BTC" && COMMON_TOKENS[4] == "USDT"
  {
  }

  /** The catalog entry at position `i` is the token made for the `i`-th symbol. */
  lemma {:induction false} CatalogEntry(prices: Api.PriceTable, symbols: seq<string>, i: nat)
    requires i < |symbols|
    ensures BuildTokens(prices, symbols)[i] == MakeToken(prices, symbols[i])
  {
    var head := MakeToken(prices, symbols[0]);
    var rest := BuildTokens(prices, symbols[1..]);
    assert BuildTokens(prices, symbols) == [head] + rest;
    if i > 0 {
      CatalogEntry(prices, symbols[1..], i - 1);
      assert symbols[1..][i - 1] == symbols[i];
    }
  }

  /**
    One token per listed symbol, in order: its symbol, a price exactly when the table has
    one (and then the table's price), and the icon URL of the symbol.
  */
  lemma BuildTokensEntries(prices: Api.PriceTable, symbols: seq<string>)
    ensures var tokens := BuildTokens(prices, symbols);
            forall i | 0 <= i < |symbols| ::
              && tokens[i].symbol == symbols[i]
              && (tokens[i].price.Some? <==> symbols[i] in prices)
              && (tokens[i].price.Some? ==> tokens[i].price.value == prices[symbols[i]])
              && tokens[i].iconUrl == Api.GetTokenIconUrl(symbols[i])
  {
    forall i | 0 <= i < |symbols| ensures BuildTokens(prices, symbols)[i] == MakeToken(prices, symbols[i]) {
      CatalogEntry(prices, symbols, i);
    }
  }

  /** The catalog has one token per common symbol, whatever the prices. */
  lemma CatalogSize(prices: Api.PriceTable)
    ensures |BuildCatalog(prices)| == |COMMON_TOKENS|
  {
  }

  /** In a catalog listing BTC before USDT, the default pair is BTC to USDT. */
  lemma DefaultPairOf(tokens: seq<Token>, b: nat, u: nat)
    requires b < |tokens| && u < |tokens|
    requires tokens[b].symbol == "BTC" && tokens[u].symbol == "USDT"
    ensures var form := DefaultForm(tokens);
            && form.fromToken.Some? && form.fromToken.value.symbol == "BTC"
            && form.toToken.Some? && form.toToken.value.symbol == "USDT"
  {
    DefaultSourceChoice(tokens);
    DefaultDestinationChoice(tokens, DefaultSource(tokens));
  }

  /** Any catalog built from symbols listing BTC before USDT defaults to BTC to USDT. */
  lemma DefaultPairOfSymbols(prices: Api.PriceTable, symbols: seq<string>)
    requires |symbols| == 15 && symbols[2] == "BTC" && symbols[4] == "USDT"
    ensures var form := DefaultForm(BuildTokens(prices, symbols));
            && form.fromToken.Some? && form.fromToken.value.symbol == "BTC"
            && form.toToken.Some? && form.toToken.value.symbol == "USDT"
  {
    CatalogEntry(prices, symbols, 2);
    CatalogEntry(prices, symbols, 4);
    DefaultPairOf(BuildTokens(prices, symbols), 2, 4);
  }

  /** With the real catalog, whatever the prices, the form starts as BTC to USDT. */
  lemma LoadedDefaults(s: State, fetched: Option<Api.PriceTable>)
    ensures var form := Load(s, fetched).form;
            && form.fromToken.Some? && form.fromToken.value.symbol == "BTC"
            && form.toToken.Some? && form.toToken.value.symbol == "USDT"
            && form.fromAmount == ""
  {
    CommonTokensFacts();
    DefaultPairOfSymbols(fetched.GetOr(map[]), COMMON_TOKENS);
  }
}
