/**
 The value logic of the application window: the three searches that refill
 the product and session tables, the scraping-mode switch, and the choice of
 scraper a scraping run uses. Widgets, message boxes and storage are left to
 the caller: a search takes the rows it would read and returns the rows it
 would show.
 */
module Interface {
  import opened Optional
  import opened Strings
  import opened TableDisplay
  import opened Scraper

  // ---------------------------------------------------------------------------
  // Filtering, the shape of every search
  // ---------------------------------------------------------------------------

  /** The elements of `s` that pass `keep`, in their order in `s`. */
  function Filter<T(!new)>(s: seq<T>, keep: T -> bool): (r: seq<T>)
    ensures |r| <= |s|
    ensures forall x :: x in r <==> x in s && keep(x)
    decreases |s|
  {
    if |s| == 0 then []
    else
      var rest := Filter(s[1..], keep);
      assert forall x :: x in s[1..] ==> x in s;
      if keep(s[0]) then [s[0]] + rest else rest
  }

  /** Filtering keeps the order: filtering a concatenation concatenates the filtered parts. */
  lemma {:induction false} FilterConcat<T(!new)>(a: seq<T>, b: seq<T>, keep: T -> bool)
    ensures Filter(a + b, keep) == Filter(a, keep) + Filter(b, keep)
    decreases |a|
  {
    if |a| == 0 {
      assert a + b == b;
    } else {
      assert (a + b)[1..] == a[1..] + b;
      FilterConcat(a[1..], b, keep);
    }
  }

  /** When every element passes, the filter shows them all. */
  lemma {:induction false} FilterKeepsAll<T(!new)>(s: seq<T>, keep: T -> bool)
    requires forall i :: 0 <= i < |s| ==> keep(s[i])
    ensures Filter(s, keep) == s
    decreases |s|
  {
    if |s| > 0 {
      FilterKeepsAll(s[1..], keep);
    }
  }

  /** When no element passes, the filter shows nothing. */
  lemma {:induction false} FilterKeepsNone<T(!new)>(s: seq<T>, keep: T -> bool)
    requires forall i :: 0 <= i < |s| ==> !keep(s[i])
    ensures Filter(s, keep) == []
    decreases |s|
  {
    if |s| > 0 {
      FilterKeepsNone(s[1..], keep);
    }
  }

  /** The empty string occurs in every string. */
  lemma ContainsEmpty(hay: string)
    ensures Contains(hay, "")
  {
    assert OccursAt(hay, "", 0);
  }

  // ---------------------------------------------------------------------------
  // Session search
  // ---------------------------------------------------------------------------

  /** A row of the sessions table, as storage returns it. */
  datatype Session = Session(id: nat, timestamp: string, count: nat)

  /** `_search_sessions`: the sessions whose timestamp contains the term, ignoring case, in storage order. */
  function SearchSessions(sessions: seq<Session>, term: string): (shown: seq<Session>)
    ensures |shown| <= |sessions|
    ensures forall x :: x in shown <==> x in sessions && Contains(Lower(x.timestamp), Lower(term))
  {
    Filter(sessions, (x: Session) => Contains(Lower(x.timestamp), Lower(term)))
  }

  /** An empty term shows every session, as `_load_scraping_sessions` does. */
  lemma SearchSessionsEmptyTerm(sessions: seq<Session>)
    ensures SearchSessions(sessions, "") == sessions
  {
    forall i | 0 <= i < |sessions|
      ensures Contains(Lower(sessions[i].timestamp), Lower(""))
    {
      ContainsEmpty(Lower(sessions[i].timestamp));
    }
    FilterKeepsAll(sessions, (x: Session) => Contains(Lower(x.timestamp), Lower("")));
  }

  /** The term's case does not matter: searching for its lower-cased form shows the same sessions. */
  lemma SearchSessionsIgnoresCase(sessions: seq<Session>, term: string)
    ensures SearchSessions(sessions, Lower(term)) == SearchSessions(sessions, term)
  {
    LowerIdempotent(term);
  }

  /** Storage order is kept: searching two runs of sessions shows the first run's matches, then the second's. */
  lemma SearchSessionsConcat(a: seq<Session>, b: seq<Session>, term: string)
    ensures SearchSessions(a + b, term) == SearchSessions(a, term) + SearchSessions(b, term)
  {
    FilterConcat(a, b, (x: Session) => Contains(Lower(x.timestamp), Lower(term)));
  }

  // ---------------------------------------------------------------------------
  // Product search
  // ---------------------------------------------------------------------------

  /**
   A stored product of a session. `price` is the text `str()` gives for the
   price value storage hands back. The price column has integer affinity, so
   storage may already have turned the catalogue's price text into a number
   (`"1299.00"` comes back as `1299`); `price` is the text after that
   conversion, not the text the scraper collected.
   */
  datatype Product = Product(model: string, price: string, ref: nat)

  /**
   `_display_session_items`: the products of the selected session, in storage
   order; nothing when no session is selected. `selected` holds the products
   storage returns for the selected session.
   */
  function SessionItems(selected: Option<seq<Product>>): (shown: seq<Product>)
    ensures selected.None? ==> shown == []
    ensures selected.Some? ==> shown == selected.value
  {
    match selected
    case None => []
    case Some(products) => products
  }

  /** `_search_models`: the selected session's products whose model contains the term, ignoring case. */
  function SearchModels(selected: Option<seq<Product>>, term: string): (shown: seq<Product>)
    ensures selected.None? ==> shown == []
    ensures selected.Some? ==> |shown| <= |selected.value|
    ensures selected.Some? ==> forall x :: x in shown <==> x in selected.value && Contains(Lower(x.model), Lower(term))
  {
    match selected
    case None => []
    case Some(products) => Filter(products, (x: Product) => Contains(Lower(x.model), Lower(term)))
  }

  /** An empty model search shows the session's products, as selecting the session does. */
  lemma SearchModelsEmptyTerm(selected: Option<seq<Product>>)
    ensures SearchModels(selected, "") == SessionItems(selected)
  {
    if selected.Some? {
      var products := selected.value;
      forall i | 0 <= i < |products|
        ensures Contains(Lower(products[i].model), Lower(""))
      {
        ContainsEmpty(Lower(products[i].model));
      }
      FilterKeepsAll(products, (x: Product) => Contains(Lower(x.model), Lower("")));
    }
  }

  /** Storage order is kept: the matches of two runs of products are the first run's matches, then the second's. */
  lemma SearchModelsConcat(a: seq<Product>, b: seq<Product>, term: string)
    ensures SearchModels(Some(a + b), term) == SearchModels(Some(a), term) + SearchModels(Some(b), term)
  {
    FilterConcat(a, b, (x: Product) => Contains(Lower(x.model), Lower(term)));
  }

  /** The message `_search_prices` shows when the entry is not an integer. */
  const PriceError := "Пожалуйста, введите числовое значение цены"

  /** What the price search leaves: the products table, and the error message it showed, if any. */
  datatype PriceSearch = PriceSearch(shown: seq<Product>, notice: Option<string>)

  /**
   `_search_prices`: the entry must parse with `int()`; otherwise the message
   is shown and the table keeps what it showed (`table`). Otherwise the
   selected session's products whose price digits spell the target are shown.
   */
  function SearchPrices(entry: string, selected: Option<seq<Product>>, table: seq<Product>): (r: PriceSearch)
    ensures r.notice.Some? <==> ParseInt(entry).None?
    ensures r.notice.Some? ==> r.notice.value == PriceError && r.shown == table
    ensures r.notice.None? && selected.None? ==> r.shown == []
    ensures r.notice.None? && selected.Some? ==> |r.shown| <= |selected.value|
    ensures r.notice.None? && selected.Some? ==>
              forall x :: x in r.shown <==> x in selected.value && ExtractNumbers(x.price) == ParseInt(entry).value
  {
    match ParseInt(entry)
    case None => PriceSearch(table, Some(PriceError))
    case Some(target) => PriceSearch(SearchPriceTarget(selected, target), None)
  }

  function SearchPriceTarget(selected: Option<seq<Product>>, target: int): seq<Product> {
    match selected
    case None => []
    case Some(products) => Filter(products, (x: Product) => ExtractNumbers(x.price) == target)
  }

  /** Storage order is kept: when the entry parses, the matches of two runs of products are the first run's, then the second's. */
  lemma SearchPricesConcat(entry: string, a: seq<Product>, b: seq<Product>, table: seq<Product>)
    ensures ParseInt(entry).Some? ==>
              SearchPrices(entry, Some(a + b), table).shown
              == SearchPrices(entry, Some(a), table).shown + SearchPrices(entry, Some(b), table).shown
  {
    if ParseInt(entry).Some? {
      FilterConcat(a, b, (x: Product) => ExtractNumbers(x.price) == ParseInt(entry).value);
    }
  }

  /**
   An entry that starts with anything but white space `int()` skips, a sign
   or a digit (a `\x1c` separator, say) shows the error and keeps the table.
   */
  lemma SearchPricesRejectsBadLead(entry: string, selected: Option<seq<Product>>, table: seq<Product>)
    requires 0 < |entry| && !IsIntSpace(entry[0]) && !IsDigit(entry[0]) && entry[0] != '+' && entry[0] != '-'
    ensures SearchPrices(entry, selected, table) == PriceSearch(table, Some(PriceError))
  {
    ParseIntRejectsBadLead(entry);
  }

  /** The entry `"\x1c5"`, which `int()` rejects, shows the error. */
  lemma SearchPricesRejectsSeparatorFive(selected: Option<seq<Product>>, table: seq<Product>)
    ensures SearchPrices("\U{1C}5", selected, table) == PriceSearch(table, Some(PriceError))
  {
    SearchPricesRejectsBadLead("\U{1C}5", selected, table);
  }

  /** A negative target finds nothing: a price's digits never spell a negative number. */
  lemma SearchPricesNegative(entry: string, selected: Option<seq<Product>>, table: seq<Product>)
    requires ParseInt(entry).Some? && ParseInt(entry).value < 0
    ensures SearchPrices(entry, selected, table) == PriceSearch([], None)
  {
    if selected.Some? {
      FilterKeepsNone(selected.value, (x: Product) => ExtractNumbers(x.price) == ParseInt(entry).value);
    }
  }

  /** Searching for the rendering of `n` finds exactly the selected products whose price digits spell `n`. */
  lemma SearchPricesForNumber(n: nat, selected: Option<seq<Product>>, table: seq<Product>, x: Product)
    requires selected.Some? && x in selected.value
    ensures SearchPrices(NatToString(n), selected, table).notice == None
    ensures x in SearchPrices(NatToString(n), selected, table).shown <==> ExtractNumbers(x.price) == n
  {
    ParseIntOfNatToString(n);
  }

  /**
   A product whose price text is itself an integer literal is found by
   searching for that text, unless the literal is negative.
   */
  lemma SearchPricesFindsOwnPrice(selected: Option<seq<Product>>, table: seq<Product>, x: Product)
    requires selected.Some? && x in selected.value
    requires ParseInt(x.price).Some? && 0 <= ParseInt(x.price).value
    ensures x in SearchPrices(x.price, selected, table).shown
  {
    ExtractNumbersOfIntLiteral(x.price);
  }

  // ---------------------------------------------------------------------------
  // Scraping mode
  // ---------------------------------------------------------------------------

  /** Which scraper a run uses. */
  datatype Mode = Synchronous | Asynchronous

  /** The notice `_switch_scraping_mode` shows for the mode it switched to. */
  function ModeNotice(mode: Mode): string {
    "Установлен " + (if mode.Asynchronous? then "асинхронный" else "синхронный") + " режим работы"
  }

  /** The mode after a switch and the notice shown for it. */
  datatype Switched = Switched(mode: Mode, notice: string)

  /** `_switch_scraping_mode`: flip the mode and announce the new one. */
  function SwitchMode(mode: Mode): (r: Switched)
    ensures r.mode != mode
    ensures r.notice == ModeNotice(r.mode)
  {
    var next := if mode.Synchronous? then Asynchronous else Synchronous;
    Switched(next, ModeNotice(next))
  }

  /** The two notices differ, so the notice tells the user which mode is now on. */
  lemma ModeNoticeDistinguishes(a: Mode, b: Mode)
    ensures ModeNotice(a) == ModeNotice(b) <==> a == b
  {
    if a != b {
      assert ModeNotice(a)[11] != ModeNotice(b)[11];
    }
  }

  /** The mode after `n` switches. */
  function SwitchTimes(mode: Mode, n: nat): Mode
    decreases n
  {
    if n == 0 then mode else SwitchTimes(SwitchMode(mode).mode, n - 1)
  }

  /** An even number of switches leaves the mode as it was, an odd number flips it. */
  lemma {:induction false} SwitchTimesParity(mode: Mode, n: nat)
    ensures SwitchTimes(mode, n) == if n % 2 == 0 then mode else SwitchMode(mode).mode
    decreases n
  {
    if n > 0 {
      SwitchTimesParity(SwitchMode(mode).mode, n - 1);
    }
  }

  /**
   `_execute_scraping`: a run with the scraper the mode selects. Either way
   only catalogue pages are requested, in page order, and a completed run
   holds only names the pages 1..10 yield.
   */
  function ExecuteScraping(mode: Mode, fetch: string -> Response, order: seq<nat>): (run: Run)
    requires IsCompletionOrder(order)
    ensures forall i :: 0 <= i < |run.requested| ==> run.requested[i] == PageUrl(i + 1)
    ensures |run.requested| <= if mode.Synchronous? then PageCap + 1 else PageCap
    ensures run.outcome.Completed? ==> run.outcome.data.Keys <= AllNames(fetch)
  {
    if mode.Synchronous? then
      var run := ScrapeSequential(fetch);
      SequentialKeysWithinAllNames(fetch);
      run
    else
      ConcurrentKeysWithinAllNames(fetch, order);
      ScrapeConcurrent(fetch, order)
  }

  lemma ConcurrentKeysWithinAllNames(fetch: string -> Response, order: seq<nat>)
    requires IsCompletionOrder(order)
    ensures ScrapeConcurrent(fetch, order).outcome.Completed? ==> ScrapeConcurrent(fetch, order).outcome.data.Keys <= AllNames(fetch)
  {
    if ScrapeConcurrent(fetch, order).outcome.Completed? {
      ConcurrentKeys(fetch, order);
    }
  }

  lemma SequentialKeysWithinAllNames(fetch: string -> Response)
    ensures ScrapeSequential(fetch).outcome.Completed? ==> ScrapeSequential(fetch).outcome.data.Keys <= AllNames(fetch)
  {
    var sr := ScrapeSequential(fetch);
    if sr.outcome.Completed? {
      forall m | m in sr.outcome.data
        ensures m in AllNames(fetch)
      {
        SequentialKeys(fetch, m);
      }
    }
  }
}
