# Mabinogi auction price monitor — Dafny model

This project models the core of a Discord bot that watches auction prices in
the game Mabinogi. Its state is a list of monitored item names, kept in the
`.env` file under the key `MABINOGI_ITEMS` as one comma-joined value.

- The chat commands `!추가` (add) and `!제거` (remove) edit that list.
- A recurring task, `price_check`, visits each item in list order and asks the
  auction API for its listings.
- For each item it takes the two cheapest unit prices. It raises an alert when
  the lowest price is at most a tenth of the next one.

There are five modules:

- `PyList` — `list.remove` over sequences, which deletes the first occurrence
  of an element. It requires the element to be present, as every caller
  checks membership first. `IndexOf` is the position `list.remove` deletes;
  the bot itself never calls `list.index`.
- `ItemCodec` — `get_items` and `save_items`. The stored value is `split(",")`
  into pieces, each piece is `strip()`ped, empty pieces are dropped, and a list
  is written back with `",".join`. Whitespace is Python's `str.isspace` over
  code points. The round trip holds for well-formed names: non-empty, stripped
  and comma-free.
- `Registry` — the `.env` store as a class `EnvFile` with a mutable
  `map<string, string>`, and the add and remove commands as methods. Each method
  returns the reply it chose and the list the bot echoes back.
- `Market` — `fetch_market_data`. The HTTP response is a datatype: the request
  raised, or a status code plus the listings' unit prices. The method copies
  the prices into an array, sorts it in place and reads the first two entries.
  The function `QuoteOf` is its reference, stated without sorting: the minimum,
  then the minimum of what is left.
- `Monitor` — the threshold test and one run of `price_check`. The market is a
  function from item name to response. The alerts passed to
  `send_discord_alert` are the run's output sequence.

Where the code's behaviour may surprise a reader, the model follows the code:

- Listings are not filtered by display name. The two cheapest of all returned
  listings are used.
- A next price of 0 is not treated as missing data. When such a quote passes
  the threshold (a lowest price of 0 or below), `send_discord_alert` divides
  by it at `main.py:105` before sending anything. The `ZeroDivisionError` is
  not caught, so the alert is not sent and the rest of the tick is skipped.
- A response with exactly one listing raises `IndexError` at `main.py:83`.
  Nothing in `price_check` catches it, so the rest of that tick is skipped
  rather than only that item. The model states this as `Quote.ListingIndexError`
  and an aborted `TickResult`.
- The stored list can hold duplicates, since `get_items` does not remove
  them. The add command can create one itself: with `a` stored, adding `b,a`
  passes the membership test and saves `a,b,a`, which reads back with `a`
  twice. Add and remove keep the stored list free of duplicates only for a
  well-formed name (non-empty, stripped, comma-free).

## Model

| member | source | states |
|---|---|---|
| ItemCodec.IsSpace | main.py:48 | the ASCII blank, tab, newline and carriage return are whitespace for `strip()`, and the comma is not |
| ItemCodec.LeadingSpace | main.py:48 | the count of leading characters is within the string, all of them are whitespace, and the next character, if any, is not |
| ItemCodec.TrailingSpace | main.py:48 | the trailing run starts within the string, holds only whitespace, and the character before it, if any, is not whitespace |
| ItemCodec.Strip | main.py:48 | `strip()` leaves whitespace at neither end, and a string with no whitespace at its ends is unchanged |
| ItemCodec.StripInfix | main.py:48 | `strip()` yields the infix of the string that lies between a whitespace-only prefix and a whitespace-only suffix |
| ItemCodec.Split | main.py:48 | `split(",")` gives at least one piece, no piece holds a comma, and joining the pieces with commas gives the input back |
| ItemCodec.ParsePieces | main.py:48 | the comprehension keeps at most one name per piece |
| ItemCodec.Parse | main.py:47-48 | every parsed name is non-empty, stripped and comma-free |
| ItemCodec.GetItems | main.py:44-48 | every name read is well-formed, and an absent or empty `MABINOGI_ITEMS` reads as the empty list |
| ItemCodec.Join | main.py:53 | `",".join` is as long as the names together plus one comma between each pair of neighbours |
| ItemCodec.SaveItems | main.py:51-53 | afterwards `MABINOGI_ITEMS` holds the comma-join of the list, and every other key keeps its value |
| ItemCodec.SplitAtComma | main.py:48 | splitting at a comma gives the pieces of the left part followed by those of the right part |
| ItemCodec.SplitNoComma | main.py:48 | comma-free text splits into itself alone |
| ItemCodec.SplitJoin | main.py:48-53 | splitting the comma-join of comma-free pieces gives the pieces back |
| ItemCodec.StripNoComma | main.py:48 | stripping comma-free text leaves it comma-free |
| ItemCodec.ParsePiecesNames | main.py:48 | the names kept from comma-free pieces are non-empty, stripped and comma-free |
| ItemCodec.ParsePiecesAppend | main.py:48 | the names of concatenated pieces are the names of the first part followed by the names of the second part, so order is kept |
| ItemCodec.ParseAtComma | main.py:48 | names left of a comma come before the names right of it, each in its original order |
| ItemCodec.ParseNoComma | main.py:48 | comma-free text parses to its stripped form, or to nothing when that is empty, so whitespace-only pieces are dropped |
| ItemCodec.ParsePiecesOfNames | main.py:48 | pieces that are already well-formed names are all kept, unchanged |
| ItemCodec.ParseJoin | main.py:48-53 | round trip: parsing the comma-join of well-formed names gives the same names in the same order |
| ItemCodec.AllNamesAppend | main.py:146 | appending a well-formed name to well-formed names keeps every entry well-formed |
| ItemCodec.SaveThenGet | main.py:44-54 | after `save_items` of well-formed names, `get_items` returns exactly that list |
| ItemCodec.CommaNameSplitsOnReload | main.py:48-53 | a name made of two names joined by a comma is written as is, but reads back as two separate entries |
| PyList.IndexOf | main.py:164 | the position `list.remove` deletes: it holds the element, and no earlier position does |
| PyList.RemoveFirst | main.py:164 | `list.remove` shortens the list by exactly one |
| PyList.RemoveFirstSlices | main.py:164 | `list.remove` deletes exactly the first occurrence; the entries before and after it keep their order |
| PyList.RemoveFirstAt | main.py:164 | after `list.remove`, entries before the removed position stay where they were and later entries move down by one |
| PyList.RemoveFirstMultiset | main.py:164 | `list.remove` takes exactly one copy of the element out of the list's bag of entries |
| PyList.AppendFresh | main.py:143-146 | appending an element the list lacks keeps the list free of duplicates |
| PyList.RemoveFromDistinct | main.py:161-164 | in a list without duplicates, removal leaves no copy of the element and no duplicates |
| Registry.RemovedNamesAreNames | main.py:164 | removing an entry from well-formed names leaves only well-formed names |
| Registry.CommaNameDuplicatesOnReload | main.py:142-147 | with `a` stored, `b,a` is not listed, yet saving the appended list reads back as `a`, `b`, `a`, which has a duplicate |
| Registry.EnvFile.constructor | main.py:46 | the store starts with the given key/value pairs |
| Registry.EnvFile.Items | main.py:142 | `get_items` on the current store: only well-formed names, and the empty list when `MABINOGI_ITEMS` is absent |
| Registry.EnvFile.Save | main.py:51-54 | writes the joined list under `MABINOGI_ITEMS` and changes nothing else; a list of well-formed names reads back unchanged |
| Registry.EnvFile.AddItem | main.py:141-147 | refuses exactly when the name is already listed, and then writes nothing. Otherwise the new list is the old list plus the name at the end, and that list is saved. A well-formed name reads back as that list. The echoed list has no duplicates if the old one had none, and for a well-formed name neither does the stored list |
| Registry.EnvFile.RemoveItem | main.py:159-165 | refuses exactly when the name is absent, and then writes nothing. Otherwise the new list is the old one with the first occurrence deleted. That list is saved and reads back unchanged. A list without duplicates loses the name entirely and stays without duplicates |
| Market.Min | main.py:81-84 | the minimum is one of the prices and at most every price |
| Market.QuoteOf | main.py:57-86 | no data exactly when the request raised, the status is not 200, or there are no listings. `IndexError` exactly for a single listing with status 200. Otherwise lowest <= next and they are the two smallest prices of the listing's bag |
| Market.MinPairIsTwoLowest | main.py:81-84 | the minimum, and the minimum of what is left after one copy of it is removed, are the two lowest prices |
| Market.TwoLowestUnique | main.py:81-84 | the two lowest prices of a bag are unique, so tie order from the sort does not change the result |
| Market.SortedHeadIsTwoLowest | main.py:81-84 | the first two entries of a sorted listing are its two lowest prices |
| Market.HeadAndRest | main.py:83 | a listing's bag is its first price plus the bag of the rest, and holds its first two prices |
| Market.SortByPrice | main.py:81 | sorting in place leaves the array ascending and a permutation of its old contents |
| Market.InsertIntoPrefix | main.py:81 | one insertion step extends the sorted prefix by one entry and permutes the array |
| Market.SwapWithPrevious | main.py:81 | swaps two neighbouring entries, leaves the rest alone, and keeps the bag of entries |
| Market.FetchMarketData | main.py:57-86 | sorting and reading the first two entries gives exactly the reference quote `QuoteOf` |
| Monitor.IsDeal | main.py:122 | alerts exactly when lowest <= next * 0.1 in exact arithmetic |
| Monitor.AlertFor | main.py:122-123 | an item gets at most one alert, exactly when its quote has prices meeting the threshold, and the alert carries its name and both prices |
| Monitor.Deals | main.py:115-123 | the reference alerts of a tick with no exception number at most one per item |
| Monitor.Tick | main.py:115-123 | a tick sends at most one alert per item |
| Monitor.PriceCheck | main.py:113-123 | the loop returns what `Tick` describes for the stored list, ending early at an `IndexError` or at a deal with next price 0. When neither occurs, the tick completes and sends exactly the reference alerts |
| Monitor.TickStep | main.py:116-123 | visiting one more item: an aborted tick stays aborted, an exception aborts it, otherwise that item's alert, if any, is appended |
| Monitor.DealsAppend | main.py:116-123 | the reference alerts of a longer list are those of its prefix followed by the new item's alert, so alerts come in list order |
| Monitor.TickWithoutException | main.py:116-123 | with no exception, the tick is never aborted. It skips items without data and sends exactly the reference alerts |
| Monitor.AbortedTickStays | main.py:116-117 | once a prefix of the list has aborted the tick, the later items change nothing |
| Monitor.TickStopsAtException | main.py:115-123 | the first item that raises an exception ends the tick with the reference alerts of the items before it |
| Monitor.DealsSound | main.py:118-123 | every reference alert names a listed item, carries that item's two prices, and meets the threshold |
| Monitor.TickAlertsSound | main.py:116-123 | every alert a tick sends, aborted or not, names a listed item, carries its two prices, meets the threshold and has a next price other than 0 |
| Monitor.DealsComplete | main.py:118-123 | every listed item whose prices meet the threshold has its alert among the reference alerts |
| Monitor.ThresholdBoundary | main.py:122 | lowest 100 against next 1000 alerts; lowest 101 against next 1000 does not |
| Monitor.TiedCheapestListings | main.py:81-86 | listings 50, 30, 80, 30 in any order give lowest 30 and next 30, which do not alert |
| Monitor.SteepDiscountAlerts | main.py:81-86 | listings 5 and 60 in any order give lowest 5 and next 60, which alert |
| Monitor.MildDiscountDoesNotAlert | main.py:81-86 | listings 500, 40, 45 in any order give lowest 40 and next 45, which do not alert |
| Monitor.IndexErrorHidesLaterDeal | main.py:115-123 | an item with a single listing ends the tick before a later item's steep discount is reported |
| Monitor.ZeroNextPriceHidesLaterDeal | main.py:105-123 | a deal with next price 0 ends the tick without its alert, before a later item's steep discount is reported |
| Monitor.FreeListingsRaise | main.py:81-105 | listings 0 and 0 give lowest 0 and next 0, a deal whose discount divides by zero |
| Monitor.SingleListingIsIndexError | main.py:83 | a successful response with exactly one listing raises `IndexError` |

## Left out

- The Discord layer is not modelled. This covers the bot and intents, the
  command decorators, the reply texts, `list_items` (`!목록`, which only reads
  `get_items`), the error handlers, `on_ready`, and `send_discord_alert`'s
  channel lookup and message. The model stops at the reply datatypes and the
  alert sequence.
- The discount percentage in the alert message is not modelled beyond its
  division by zero: for a next price of 0 the tick ends as aborted, with no
  alert sent. Otherwise the percentage only appears in the message text.
- Monitor.Tick and Monitor.PriceCheck assume that the alert channel
  resolves. When `send_discord_alert` cannot find it (`main.py:92-103`), it
  returns before the division, so a deal with next price 0 does not end the
  tick in the source, but it does in the model.
- HTTP and JSON are replaced by the `Response` datatype. This drops the
  headers, the URL quoting of the item name, `resp.json()` failing on a
  non-JSON body, and listings whose price field is missing or not an integer.
  The sort at line 81 would raise `KeyError` or `TypeError` on those, so the
  `.get(..., 0)` default at line 84 is never reached and is not modelled.
- The `.env` file format is not modelled, nor `dotenv` quoting and escaping,
  nor a key with no value (`None`). `load_dotenv()` is left out too: it only
  refreshes the process environment, which the core never reads back.
- Scheduling is not modelled: `tasks.loop`, its interval, `before_loop` /
  `wait_until_ready`, and the `restart()` after each command. Neither is what
  `tasks.loop` does with an exception that escapes a tick; the model ends
  that tick as aborted. Interleaving of commands with a running tick is not
  modelled either: a tick works on the list it read at its start.
- Logging and the startup check of environment variables are not modelled.
- The market is modelled as one fixed response per item name for the whole
  tick. Network timing and retries are not modelled.
- Monitor.IsDeal: the comparison `lowest_price <= next_price * 0.1` is stated
  in exact arithmetic. IEEE double rounding of `next_price * 0.1` is not
  modelled, and it can differ from the exact result for prices above about
  10^15.
