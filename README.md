# Telemetry window of the S7-1200 live dashboard

This project models the logic behind the live dashboard in `dashboard.py`. The dashboard shows humidity and temperature read from a remote telemetry endpoint. Each page request does four things:

1. It fetches one reading, fail-soft. A failed fetch falls back on the newest reading already in the history, or on 0/0 when the history is empty.
2. It appends the reading to a process-wide history and keeps only the newest 50 readings.
3. It computes the minimum, maximum and mean of each quantity over that window, or 0 for all three when the window is empty.
4. It shows the newest 10 readings newest first, next to the current reading.

Values are raw fixed-point integers in tenths, as the controller sends them.

The modules follow those steps:

- `Readings` (readings.dfy): the `Reading` record and the result of a fetch (`FetchResult`: a parsed JSON object, or `Failed`). It also holds `GetReading`, the fail-soft choice of the request's reading.
- `Window` (window.dfy): the bounded first-in first-out history (`Tail`, `Appended`, `AppendAll`) and the newest-first table view (`Reverse`, `LatestFirst`).
- `Statistics` (statistics.dfy): `Minimum`, `Maximum`, `Sum` and the exact `Mean`, and the per-quantity `Stats` shown on the page.
- `Dashboard` (dashboard.dfy): the class `Dashboard`, whose one field `history` is the global window. Its `Request` method performs one page request. The module also has `Serve`, which runs many requests in a row, the lemmas about long runs of requests, and a worked three-request scenario.

The network result and the clock are inputs. A fetch is a `FetchResult` value and "now" is an opaque integer, so every step is deterministic.

The fallback happens only when something raises: a timeout, a connection error, a body that is not JSON, or JSON that is not an object (`data.get` then raises). A JSON object that lacks `humidity` or `temperature`, an HTTP error body included, is a successful fetch, and the missing field reads 0. In the model such a payload is `Payload(fields)`.

## Model

| member | source | states |
|---|---|---|
| `Readings.GetReading` | dashboard.py:16-27 | The reading is stamped with `now`. A successful fetch takes each field unchanged when present and 0 when missing. A failed fetch copies humidity and temperature from the last history entry, or gives 0/0 when the history is empty. |
| `Readings.FieldOr0` | dashboard.py:21 | `data.get(key, 0)`: the field's value when the payload carries the key, and 0 when it does not. |
| `Window.Tail` | dashboard.py:320 | `tail(n)`: the last `min(n, |s|)` elements of `s`, in order. |
| `Window.Appended` | dashboard.py:319-320 | After a request's append-then-truncate, the history is non-empty, holds at most 50 readings, at most one more than before, and ends with the new reading. |
| `Window.AppendAll` | dashboard.py:317-320 | Appending a non-empty run of readings, one append-then-truncate at a time, leaves a non-empty history of at most 50 readings that ends with the last of them. |
| `Window.AppendedEvictsOldest` | dashboard.py:319-320 | Eviction is first-in first-out. The kept old entries are an unchanged, contiguous run of the newest old entries. Below capacity nothing is evicted. At capacity exactly the oldest entry is evicted. |
| `Window.AppendAllKeepsNewest` | dashboard.py:317-320 | Starting from any window of at most 50 readings, any number of appends leave exactly the newest 50 of all readings, in arrival order. |
| `Window.NewestFiftyAfterWarmUp` | dashboard.py:319-320 | Once at least 50 readings have arrived, the history equals the last 50 of them. |
| `Window.Reverse` | dashboard.py:349 | `iloc[::-1]`: same length, and element `i` is element `|s|-1-i` of the input. |
| `Window.LatestFirst` | dashboard.py:338-349 | The table holds `min(k, |history|)` entries, and entry `i` is `history[|history|-1-i]` (newest first). |
| `Statistics.Column` | dashboard.py:323-328 | One column of the history: as many values as readings, the `i`-th being reading `i`'s value of the quantity. |
| `Statistics.Minimum` | dashboard.py:323 | The minimum is one of the values and is at most every value. |
| `Statistics.Maximum` | dashboard.py:324 | The maximum is one of the values and is at least every value. |
| `Statistics.SumBetween` | dashboard.py:325 | A total of `n` values within `[lo, hi]` lies between `n` copies of `lo` and `n` copies of `hi`. |
| `Statistics.Mean` | dashboard.py:325 | The mean is the value whose `|xs|` copies add up to the total of the values. |
| `Statistics.MeanWithin` | dashboard.py:325-328 | A mean of a non-empty window lies between its minimum and its maximum. |
| `Statistics.Summary` | dashboard.py:323-328 | An empty window gives 0/0/0. Otherwise the minimum and maximum are attained and bound every value, and min ≤ mean ≤ max, where the mean is the arithmetic mean. |
| `Statistics.QuantityStats` | dashboard.py:323-328 | The same, per quantity over the history's readings. An empty history gives 0/0/0. Otherwise min and max are values of some reading and bound every reading, and min ≤ mean ≤ max. |
| `Dashboard.Serve` | dashboard.py:316-320 | After a non-empty run of requests, the history holds 1 to 50 readings, and its newest entry carries the time of the last request. |
| `Dashboard.Arrived` | dashboard.py:16-27 | A run of requests produces one reading per request. |
| `Dashboard.ArrivedInRequestOrder` | dashboard.py:317-319 | The `i`-th reading produced is stamped with the `i`-th request's time. |
| `Dashboard.ServeIsAppendAll` | dashboard.py:316-320 | Serving a run of requests leaves the same history as appending, one by one, the readings that run produces. |
| `Dashboard.NewestFiftyRequests` | dashboard.py:316-320 | After at least 50 requests, the history is exactly the readings of the last 50 requests, oldest first. |
| `Dashboard.ServeWithinCapacity` | dashboard.py:317-320 | Over any sequence of requests, the history never exceeds 50 readings, and it is non-empty after the first request. |
| `Dashboard.StaleButAvailable` | dashboard.py:22-26 | While every fetch fails, the newest reading keeps the humidity and temperature of the newest reading from before the outage. |
| `Dashboard.ColdStartStaysZero` | dashboard.py:24-27 | From a window of only zero readings, including the empty one, a run of failed fetches adds only 0/0 readings. |
| `Dashboard.Dashboard.constructor` | dashboard.py:14 | The history starts empty and within capacity. |
| `Dashboard.Dashboard.Request` | dashboard.py:316-349 | The current reading is `GetReading` over the old history. The new history is that reading appended, then truncated to 50, and it ends with the current reading. The page gets the whole window, the newest-first table of 10 and the per-quantity statistics of the new window. The capacity invariant is kept. |
| `Dashboard.ThreeReadingScenario` | dashboard.py:316-328 | Three successful fetches from start-up (50/200, 52/205, 48/198) give humidity 48/52/50.0 and temperature 198/205/201.0. The table lists the three readings newest first. |

## Left out

- The Flask application, the route decorator, `render_template_string` and `app.run` (dashboard.py:2, 10, 315, 340-354) are HTTP serving and templating. `Request` returns the `Snapshot` the template would receive.
- The HTML/CSS/Jinja template and the Plotly chart script (dashboard.py:30-313) are presentation only.
- `requests.get`, its 5-second timeout, `response.json()` and the `print` of the error (dashboard.py:18-19, 23) are network I/O and logging. They are replaced by the `FetchResult` parameter.
- `datetime.now()` and `strftime` (dashboard.py:20, 26-27, 332, 351) are clock reads and string formatting. A request's time is the integer `now`. The separate clock read for the page footer (dashboard.py:351) is not modelled.
- The division by 10 and the `"%.1f"` formatting (dashboard.py:184-250, 333-334) are floating-point display concerns.
- pandas DataFrame mechanics (column dtypes, the index, `concat`) are not modelled. The history is a sequence of `Reading` records.
- Payload fields with a value that is not an integer (a string, `null`, a float) are not modelled. Every field of `Payload` is an integer.
- Integers are unbounded. A 64-bit pandas column overflow is not modelled.
- Concurrent requests against the global history are not modelled. The model is sequential: one `Request` at a time.
- Statistics.Mean: the model states the exact rational mean. pandas computes a 64-bit float mean, and its rounding is not modelled.
