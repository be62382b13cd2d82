# Bicycle catalogue scraper: a Dafny model

This project models the value logic of a small desktop scraper for the
bicycle catalogue at `https://m-velo.by/velosipedy`. The scraper walks the
catalogue's pages and pairs each product title with its price. It keeps one
price per model name, where the last write wins. The window then lets the
user browse, sort and search the stored results.

The model has five modules:

- `Optional` (`optional.dfy`): `Option`.
- `Strings` (`strings.dfy`): the Python string builtins the code relies on, written out over `seq<char>`. These are `str.isdigit`, `str.lower`, `needle in hay`, `str.split(sep)[-1]`, `str(n)` and `int(s)`.
- `Scraper` (`scraper.dfy`): `web_scrapper.py`. It covers record extraction (title/price pairing by position, model names, merging into the catalogue), the sequential driver, and the concurrent driver.
- `TableDisplay` (`table_display.dfy`): `extract_numbers` and `sort_table`, with the sort modelled as Python's stable decorate-sort-undecorate.
- `Interface` (`interface.dfy`): the session, model and price searches, the mode switch, and the choice of scraper for a run.

The outside world becomes parameters:

- **The HTTP transport** is a total function from URL to `Response`. A `Response` is either `Response(status, page)` or `TransportError`. The requested URLs are recorded in the run, so the properties can talk about which requests are made.
- **The HTML selectors' output** is a `Page`: the sequence of `title` attributes and the sequence of `content` price attributes.
- **Task completion order** for the concurrent driver is a permutation of pages 1..10.
- **Storage** is the rows it would return: the sessions, and the selected session's products (`None` when nothing is selected).

Three behaviours of the code that are easy to misread:

- The sequential driver requests a page *before* testing the status and the page cap (`web_scrapper.py:29-30`). So after ten good pages it still requests page 11, then drops it unparsed.
- A transport exception is not caught by either driver. The model ends such a run with `Aborted`, which returns no catalogue. It is not treated as an empty page.
- The concurrent driver parses every body, whatever its status (`web_scrapper.py:44`). Each task writes into the shared catalogue as it completes (`web_scrapper.py:48`); there is no merge after the join. The merge order is therefore the completion order.

## Model

| member | source | states |
|---|---|---|
| Strings.Lower | interface_manager.py:227 | lower-casing keeps the length, leaves no capital letter, and changes a character exactly when it is a capital letter |
| Strings.LowerIdempotent | interface_manager.py:243 | lower-casing an already lower-cased term changes nothing |
| Strings.Contains | interface_manager.py:227 | `needle in hay` holds exactly when the needle occurs at some index of the hay |
| Strings.LastOccurrence | web_scrapper.py:19 | the index found is an occurrence with none after it; none is found only when the pattern never occurs |
| Strings.SplitLastIsAfterLastOccurrence | web_scrapper.py:19 | `s.split(sep)[-1]`, computed by Python's left-to-right scan, is the text after the last occurrence of a border-free separator, or all of `s` when it does not occur |
| Strings.DigitsOf | interface_manager.py:14 | keeps only digits, and is empty exactly when the text has no digit |
| Strings.DigitsOfConcat | interface_manager.py:14 | the digits of a concatenation are the digits of the parts, in order |
| Strings.NatToString | web_scrapper.py:29 | `str(n)` is a non-empty run of digits with no leading zero unless `n` is 0 |
| Strings.DecimalValueOfNatToString | web_scrapper.py:29 | reading `str(n)` as a decimal number gives `n` back |
| Strings.NatToStringOfDecimalValue | web_scrapper.py:29 | a digit string without a leading zero is the rendering of its value |
| Strings.NatToStringInjective | web_scrapper.py:53 | different numbers render differently |
| Strings.ParseIntOfNatToString | interface_manager.py:260 | `int(str(n)) == n` |
| Strings.ParseIntOfNegated | interface_manager.py:260 | `int("-" + str(n)) == -n` |
| Strings.ParseIntRejectsBadLead | interface_manager.py:260 | `int()` rejects a text whose first character is not skipped white space, a sign or a digit, such as a leading `\x1c` |
| Scraper.PageUrlNumber | web_scrapper.py:29 | the base URL has no digit, so the digits of a page URL spell exactly its page number |
| Scraper.PageUrlInjective | web_scrapper.py:53 | two pages share a URL exactly when they are the same page |
| Scraper.ModelNameIsAfterLastMarker | web_scrapper.py:19 | the model name is the title's text after the last "Велосипед", or the whole title when the word is absent |
| Scraper.ModelNameBoundaries | web_scrapper.py:19 | a title without the word is its own name; a title ending with the word gives the empty name |
| Scraper.PairRecordsSpec | web_scrapper.py:18 | `zip` makes exactly min(titles, prices) records; record i pairs the name of title i with price i, and surplus nodes are dropped |
| Scraper.MergeSpec | web_scrapper.py:18-19 | the keys become the old keys plus the written names; keys not written keep their price; a name ends with the price of its last record |
| Scraper.MergeAppend | web_scrapper.py:19 | writing one batch and then another is writing their concatenation, so a later call overwrites an earlier one |
| Scraper.MergeBaseIrrelevant | web_scrapper.py:19 | once the records write a name, its final price does not depend on the catalogue they were written into |
| Scraper.ExtractPageKeys | web_scrapper.py:13-19 | one extraction adds exactly the names of the paired titles to the keys |
| Scraper.ExtractPageUntouched | web_scrapper.py:18-19 | a key that the page does not name keeps its price |
| Scraper.ExtractPageLastTitleWins | web_scrapper.py:18-19 | a name repeated on a page takes the price paired with its last title |
| Scraper.FoldPagesIsMerge | web_scrapper.py:32 | extracting pages one after another is one merge of all their records in page order |
| Scraper.FoldPagesKeys | web_scrapper.py:32 | after several extractions the keys are the old keys plus every name some page yields |
| Scraper.FoldPagesUntouched | web_scrapper.py:32 | a name that no page yields keeps its old price |
| Scraper.FoldPagesLastPageWins | web_scrapper.py:32 | a name takes the price from the last page that yields it |
| Scraper.Crawl | web_scrapper.py:28-33 | the loop from page p makes one more request than it parses, parses consecutive pages from p, and never goes past page 11 |
| Scraper.CrawlRequests | web_scrapper.py:29 | the i-th request of the loop goes to the URL of page p + i |
| Scraper.CrawlAccepted | web_scrapper.py:30-32 | every parsed page answered 200 |
| Scraper.CrawlStops | web_scrapper.py:30-31 | the page the loop stopped at did not answer 200, or lies past page 10 |
| Scraper.CrawlAborts | web_scrapper.py:29 | the run is aborted exactly when the last request raised |
| Scraper.CrawlData | web_scrapper.py:32-34 | a completed loop returns the catalogue with the parsed pages extracted in page order |
| Scraper.ScrapeSequential | web_scrapper.py:22-34 | pages 1..k are parsed in order, each answering 200, with k at most 10 and page k+1 refused or past the cap; exactly k+1 URLs are requested, at most 11; the run is aborted iff request k+1 raised; the result is the pages extracted in page order |
| Scraper.SequentialKeys | web_scrapper.py:28-34 | a completed sequential run holds exactly the names of pages 1..k |
| Scraper.SequentialParsesAllPages | web_scrapper.py:28-33 | when pages 1..10 answer 200 and page 11 answers at all, pages 1..10 are parsed in order, page 11 is still requested as the eleventh request but not parsed, and the catalogue is the ten pages extracted in order |
| Scraper.PageRange | web_scrapper.py:52 | `range(1, 11)` holds exactly the pages 1..10, each once, in ascending order |
| Scraper.Gather | web_scrapper.py:55 | the tasks finish a prefix of the completion order, and the run is aborted exactly when some task did not finish |
| Scraper.GatherResponses | web_scrapper.py:41-48 | every finished task got a response; the task the run died at raised |
| Scraper.GatherData | web_scrapper.py:46-48 | a completed gather holds the pages extracted in completion order |
| Scraper.ScrapeConcurrent | web_scrapper.py:50-59 | exactly the ten URLs of pages 1..10 are requested, all different; the run completes iff no transport raises; then it holds the ten pages extracted in completion order |
| Scraper.TaskUrlsDistinct | web_scrapper.py:52-54 | the ten task URLs are pairwise different |
| Scraper.GatherCompletesIff | web_scrapper.py:55 | over any completion order, the tasks complete exactly when no page's transport raises |
| Scraper.ConcurrentKeys | web_scrapper.py:46-48 | the key set of a completed concurrent run is the names of all ten pages, whatever the completion order |
| Scraper.ConcurrentSinglePageName | web_scrapper.py:46-48 | a name found on one page only gets that page's price, whatever the completion order |
| Scraper.ConcurrentPriceFromSomePage | web_scrapper.py:46-48 | every price in the concurrent result is the price some page gives that name |
| Scraper.PageRangeIsCompletionOrder | web_scrapper.py:52 | pages 1..10 in order are a possible completion order |
| Scraper.ConcurrentCompletes | web_scrapper.py:55 | when no transport raises, the concurrent run completes with the pages extracted in completion order |
| Scraper.StrategiesAgreeInPageOrder | web_scrapper.py:27-59 | when pages 1..10 answer 200 and page 11 answers, the sequential run and the concurrent run that completes in page order return the same catalogue |
| TableDisplay.ExtractNumbers | interface_manager.py:13-15 | a text without digits gives 0; the number is below 10 to the power of the number of digits |
| TableDisplay.ExtractNumbersIgnoresNonDigit | interface_manager.py:14 | inserting a non-digit anywhere does not change the number |
| TableDisplay.ExtractNumbersConcat | interface_manager.py:14-15 | the number of `a + b` is the number of `a` shifted left past the digits of `b`, plus the number of `b` |
| TableDisplay.ExtractNumbersOfRendering | interface_manager.py:13-15 | the number read from `str(n)` is `n` |
| TableDisplay.ExtractNumbersFixpoint | interface_manager.py:13-15 | `extract_numbers(str(extract_numbers(t))) == extract_numbers(t)` |
| TableDisplay.ExtractNumbersOfIntLiteral | interface_manager.py:15 | for a text that `int()` accepts, the digits spell the magnitude of the integer it denotes |
| TableDisplay.LexLeTotal | interface_manager.py:25 | Python's string order is total |
| TableDisplay.LexLeAntisymmetric | interface_manager.py:25 | strings that order both ways are equal |
| TableDisplay.LexLeTransitive | interface_manager.py:25 | Python's string order is transitive |
| TableDisplay.InsertSorted | interface_manager.py:22 | inserting into a sorted table keeps it sorted |
| TableDisplay.InsertSelect | interface_manager.py:22 | insertion puts a row after the rows of equal key and leaves other keys' rows alone |
| TableDisplay.SortSpec | interface_manager.py:21-25 | the sort yields a permutation, ordered by key in the requested direction, with the rows of each key in their original order |
| TableDisplay.SortedUnique | interface_manager.py:21-25 | two sequences sorted in the same direction, with the same rows per key, are equal |
| TableDisplay.SortPermutesRows | interface_manager.py:29-30 | the rows after a sort are the rows before it, rearranged |
| TableDisplay.SortTableSpec | interface_manager.py:18-30 | after a header click the table is a permutation of its rows, ordered by the column's key (number or lower-cased text) in the click's direction |
| TableDisplay.HeaderAlternates | interface_manager.py:32-34 | the header is rebound to the same column and key with the direction negated, so two clicks return to the original direction |
| TableDisplay.LastClickDecides | interface_manager.py:18-34 | re-sorting a sorted column in either direction gives what that sort alone gives the original table |
| TableDisplay.ThirdClickRestoresFirst | interface_manager.py:18-34 | clicking a header three times leaves the table as the first click did |
| Interface.Filter | interface_manager.py:226-228 | the filter keeps exactly the elements that pass, and never more than there were |
| Interface.FilterConcat | interface_manager.py:226-228 | filtering keeps the order: filtering a concatenation concatenates the filtered parts |
| Interface.SearchSessions | interface_manager.py:221-228 | the search shows exactly the sessions whose timestamp contains the term, ignoring case |
| Interface.SearchSessionsEmptyTerm | interface_manager.py:214-228 | an empty term shows every session, as reloading the sessions does |
| Interface.SearchSessionsIgnoresCase | interface_manager.py:227 | searching for the lower-cased term shows the same sessions |
| Interface.SearchSessionsConcat | interface_manager.py:226-228 | the sessions shown keep their storage order |
| Interface.SessionItems | interface_manager.py:230-240 | with no session selected nothing is shown; otherwise the session's products exactly as storage returns them, in storage order |
| Interface.SearchModels | interface_manager.py:242-256 | with no session selected nothing is shown; otherwise the products whose model contains the term, ignoring case, each at most once and in storage order (with `SearchModelsConcat`) |
| Interface.SearchModelsConcat | interface_manager.py:254-256 | the matching products keep storage order |
| Interface.SearchModelsEmptyTerm | interface_manager.py:242-256 | an empty model search shows what selecting the session shows |
| Interface.SearchPrices | interface_manager.py:258-278 | an entry that `int()` rejects shows the error and leaves the table as it was; otherwise it shows the selected products whose price digits equal the target, each at most once, or nothing without a selection |
| Interface.SearchPricesConcat | interface_manager.py:274-278 | when the entry parses, the matching products keep storage order |
| Interface.SearchPricesRejectsBadLead | interface_manager.py:259-263 | an entry starting with a character `int()` cannot start a literal with shows the error and keeps the table |
| Interface.SearchPricesRejectsSeparatorFive | interface_manager.py:259-263 | the entry `"\x1c5"` shows the error and keeps the table |
| Interface.SearchPricesNegative | interface_manager.py:276-277 | a negative target finds nothing |
| Interface.SearchPricesForNumber | interface_manager.py:258-278 | searching for `str(n)` finds exactly the products whose price digits spell `n` |
| Interface.SearchPricesFindsOwnPrice | interface_manager.py:258-278 | a product whose price text is a non-negative integer literal is found by searching for that text |
| Interface.SwitchMode | interface_manager.py:195-198 | the switch flips the mode and announces the new one |
| Interface.ModeNoticeDistinguishes | interface_manager.py:197-198 | the two notices differ, so the notice names the mode now in force |
| Interface.SwitchTimesParity | interface_manager.py:195-196 | an even number of switches restores the mode, an odd number flips it |
| Interface.ExecuteScraping | interface_manager.py:200-204 | a run in either mode requests only catalogue pages, in page order, at most 11 (synchronous) or 10 (asynchronous), and a completed run holds only names that pages 1..10 yield |

## Left out

- HTTP transport (`requests.get`, `aiohttp`): it is network I/O, so the model takes a function from URL to response instead. A fixed sequence of responses would lose which URL each request went to.
- BeautifulSoup selection (`web_scrapper.py:14-16`): a foreign library. The titles and prices are given as sequences of strings.
- A missing `title` or `content` attribute on a selected node (a `KeyError` in Python): the model takes the attribute values as given.
- asyncio scheduling: only its observable effect is modelled. Each page task extracts as a whole, on one thread, in some completion order. Tasks still in flight when one task raises are not modelled.
- The instance state of a scraper across repeated `scrape_all_pages` calls: each run starts from a fresh scraper, as `_execute_scraping` creates one per run.
- `data_storage.py`: an SQLite wrapper with wall-clock timestamps and auto-increment ids. Storage is replaced by the rows it returns, and storing a run's catalogue is not modelled.
- Tk widgets, layout, `showinfo`, and the Treeview insert, delete and move calls: user-interface plumbing. The searches return the rows the table would show.
- The `except` fallback of `sort_table` (`interface_manager.py:26-27`): cell values read from a Treeview are always strings, so `lower()` cannot fail there.
- Strings.ParseInt: does not model Python's limit on the number of digits `int()` converts (4300 by default since Python 3.11 and in patched earlier releases), because the limit depends on the interpreter version and its settings. Past the limit Python raises `ValueError`, so `_search_prices` shows its error (`interface_manager.py:259-263`) where the model parses the entry and filters.
- TableDisplay.ExtractNumbers: does not model the same digit limit. A cell with more digits makes `extract_numbers` raise an uncaught `ValueError` (`interface_manager.py:15`) inside `sort_table` and `_search_prices`, where the model returns a number.
- The conversion of a stored price by SQLite's type affinity (`data_storage.py:23` declares the price column `INTEGER`): storage may return the number `1299` for the scraped text `"1299.00"`. `Interface.Product.price` stands for the text `str()` gives for what storage returns (`interface_manager.py:14`), after that conversion, and not for the catalogue's price text; the conversion itself is not modelled.
- Unicode: `Strings.Lower` lower-cases Latin A–Z, Cyrillic А–Я and Ё only; the other capitals of U+0400–U+040F, among them Belarusian І and Ў, are kept as they are. `Strings.IsDigit` is ASCII only, while Python's `str.isdigit` also accepts other digits. The model's `int()` skips the ASCII white space ' ', \t, \n, \v, \f and \r (not \x1c–\x1f, which `int()` rejects) and accepts ASCII digits only; the non-ASCII white space and digits Python's `int()` also accepts are not modelled.
- Strings.SplitLastIsAfterLastOccurrence: proved only for separators that have no border. The one separator the code uses, "Велосипед", has none (`Scraper.MarkerIsBorderFree`). For other separators the scan itself, `Strings.SplitLastFrom`, is still the model.
- Interface.ExecuteScraping: states only what both scrapers guarantee. Each scraper's own contract gives the rest.
- `clear_table`, `_clear_all_data` and `_load_scraping_sessions`: they only move rows between storage and widgets. Reloading the sessions is `SearchSessions` with the empty term.
