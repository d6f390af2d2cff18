# Battery Doctor: a Dafny model of its calculations

Battery Doctor is a Termux tool that polls `termux-battery-status` every
minute, logs each reading to an SQLite table `stats`, and shows a small dashboard.
This project models the four calculations inside the tool, separated from their I/O:

- **Sparkline quantizer** (`Sparkline` module, `sparkline.dfy`). The history
  window is the `capacity` column of the ten newest rows, newest first. The
  window's minimum and maximum give a spread (`range_val`), which is 1 when
  all values are equal. Each value, in window order, becomes one of eight bar
  glyphs at index `min(int((v - min) / range_val * 7), 7)`. `RenderSparkline` builds
  the text in a loop, as the source does. It is proved against the
  specification function `Quantize`. The lemmas about `Quantize` cover the
  index bounds, the flat window, where the extremes land, monotonicity and
  three worked windows.
- **Health ratio** (`Health` module, `health.dfy`). The design capacity file
  is read first, then the current one. Each value is divided by 1000, and the
  result is `current / design * 100`. Only `FileNotFoundError` falls back to
  100.0. Every other failure propagates out of the call: a read error
  (`OSError`), unparsable text (`ValueError`), or a zero design capacity
  (`ZeroDivisionError`). Each file's read outcome is an input to the model.
- **Temperature indicator** and **charge-complete alert** (`Dashboard`
  module, `dashboard.dfy`). The indicator is red above 40 °C, yellow above
  35 °C and green otherwise. The alert fires on AC power at 80% or more, on
  every tick that meets the condition.

Modelling decisions:

- Capacities and temperatures are Dafny `real`. This is exact arithmetic, not
  IEEE doubles.
- Python's `int()` is modelled as truncation toward zero (`Trunc`). On the
  non-negative values that occur here, it equals `.Floor`.
- The `stats` table is a sequence of `Sample` rows listed in ascending key
  order. The key is the text `datetime.now().isoformat()`: naive local
  wall-clock time. It is abstracted as an integer that keeps the key's text
  order.
- The query `ORDER BY timestamp DESC LIMIT 10` is the function `Window`. It
  orders by key, as the query does.
- Key order is not insertion order when the clock goes back: at the end of
  daylight saving time, or after a manual or network time correction. Rows
  inserted later then get smaller keys, and the window shows older rows as
  the newest.
- The rows' `capacity` column holds the health percentage logged on each
  tick. The sparkline therefore draws the recent health values.

Behaviour of the code worth noting:

- The health result is a bare float. Nothing marks the fallback as an
  estimate. `FallbackIndistinguishable` shows that a missing file and a
  measured 100% give the same result.
- Only a zero design capacity fails, by `ZeroDivisionError`. A negative value
  is divided like any other.
- `estimate_cycles` returns a constant. `calibrate`, `report` and `saver`
  only print. None of them has logic to model (see Left out).

## Model

| member | source | states |
|---|---|---|
| Sparkline.NewestRows | battery_doctor.py:81-83 | the newest `n` rows, or all of them when there are fewer, in newest-first order: element `i` is the row `i` places from the end |
| Sparkline.Window | battery_doctor.py:81-83 | the history window holds at most 10 values |
| Sparkline.WindowIsNewestFirst | battery_doctor.py:81-83 | on a table listed in key order, the window has min(10, rows) values: the capacities of the rows with the largest keys, in strictly descending key order; every row left out has a smaller key than every row taken |
| Sparkline.Trunc | battery_doctor.py:93 | `int()` truncates toward zero: for x >= 0 the result n satisfies n <= x < n + 1, and for x < 0 it satisfies n - 1 < x <= n |
| Sparkline.Smallest | battery_doctor.py:89 | `min(values)` is an element of the window and no element is smaller |
| Sparkline.Largest | battery_doctor.py:90 | `max(values)` is an element of the window and no element is larger |
| Sparkline.Spread | battery_doctor.py:91 | `range_val` is always positive, so the division never fails; on a window that is not flat, it is exactly max − min |
| Sparkline.Level | battery_doctor.py:93 | the unclamped index `int((v - min) / range_val * 7)` is never negative for a value at or above the window minimum, so the lower bound needs no clamp |
| Sparkline.BarIndex | battery_doctor.py:93-94 | the clamped index is at most 7, and at least 0 for any value not below the window minimum |
| Sparkline.Quantize | battery_doctor.py:88-94 | one index per window value, and every index lies in 0..7, so `bars[...]` is never out of range |
| Sparkline.ClampIsIdle | battery_doctor.py:93-94 | for values between the minimum and the maximum, the unclamped level already lies in 0..7, so the `min(…, 7)` clamp never changes a result in exact arithmetic |
| Sparkline.BarIndexAtMin | battery_doctor.py:89-94 | the window minimum always maps to the blank bar |
| Sparkline.BarIndexAtMax | battery_doctor.py:90-94 | when max > min, the window maximum maps to the full block (index 7) |
| Sparkline.ExtremesLand | battery_doctor.py:89-94 | when max > min, every occurrence of the minimum gets index 0 and every occurrence of the maximum gets index 7 |
| Sparkline.FlatWindowIsBlank | battery_doctor.py:91-94 | in a non-empty window, every bar is blank if and only if all values are equal; this includes the all-zero window |
| Sparkline.BarIndexMonotone | battery_doctor.py:93-94 | a larger value never gets a lower bar index than a smaller one with the same min and max |
| Sparkline.QuantizeMonotone | battery_doctor.py:93-94 | within one window, `a <= b` implies `index(a) <= index(b)` |
| Sparkline.QuantizeEmpty | battery_doctor.py:87-95 | an empty window quantizes to no indices |
| Sparkline.QuantizeFlatExample | battery_doctor.py:91-94 | `[5, 5, 5]` takes the `range_val = 1` path and gives `[0, 0, 0]` |
| Sparkline.QuantizeSpreadExample | battery_doctor.py:89-94 | `[0, 50, 100]` gives `[0, 3, 7]` (50 maps to floor(3.5)) |
| Sparkline.RenderSparkline | battery_doctor.py:86-95 | the loop produces exactly one glyph per window value, in window order, and glyph `i` is `bars[Quantize(values)[i]]` |
| Sparkline.CapacityHistorySparkline | battery_doctor.py:79-95 | the sparkline has one glyph per window value: at most 10 glyphs, none reversed, and an empty table gives `""`; on a table listed in key order, glyph `i` draws the row with the `i`-th largest key, and every row left out has a smaller key than every row drawn |
| Health.ReadMilliAmpHours | battery_doctor.py:29-33 | a present file yields its value in mAh (1000 × mAh = µAh), a missing file yields "not found", and any other read outcome yields an exception |
| Health.CalculateHealth | battery_doctor.py:26-38 | with both files present and a non-zero design capacity, health is `current / design * 100`, because the `/1000` scalings cancel; a missing file gives exactly 100.0 unless the design read already failed; the call raises if and only if a read fails in another way or the design capacity is zero |
| Health.ScalingCancels | battery_doctor.py:30-35 | dividing both capacities by 1000 does not change the ratio |
| Health.MeasuredHealthNotClamped | battery_doctor.py:35 | a measured health is never negative and is not clamped: it is above 100 if and only if current > design, and exactly 100 if and only if current = design |
| Health.HealthMonotone | battery_doctor.py:35 | a larger current capacity never gives a lower health |
| Health.FallbackIndistinguishable | battery_doctor.py:36-38 | the fallback for a missing file equals a measured 100%: a caller cannot distinguish them |
| Health.UnreadableFileRaises | battery_doctor.py:28-38 | as written, a file that exists but cannot be read raises `OSError` instead of falling back |
| Health.CalculateHealthIntended | battery_doctor.py:36-38 | with the fallback the comment describes, any file that cannot be read gives 100.0 and no `OSError` escapes; on every other input it agrees with the code as written |
| Dashboard.TemperatureIndicator | battery_doctor.py:47-51 | red if and only if temp > 40; yellow if and only if 35 < temp <= 40; green if and only if temp <= 35 |
| Dashboard.IndicatorMonotone | battery_doctor.py:49-51 | a hotter reading never shows a milder indicator |
| Dashboard.ChargeAlert | battery_doctor.py:60 | true if and only if plugged == "PLUGGED_AC" and percentage >= 80: on AC power it fires exactly at 80% or more, and off AC power it never fires |
| Dashboard.ChargeAlertThreshold | battery_doctor.py:60 | on AC power the threshold is inclusive: the alert fires at 80% and not at 79%; off AC power it does not fire even at 100% |
| Dashboard.NotificationsSent | battery_doctor.py:60-63 | a run of ticks sends at most one notification per tick |
| Dashboard.AlertRefiresEveryTick | battery_doctor.py:60-63 | no edge triggering: when every tick meets the condition, every tick notifies |
| Dashboard.CountsQualifyingTicks | battery_doctor.py:60-63 | the notifications sent over a run of ticks number exactly the ticks whose own reading meets the condition |

## Findings

| source | as written | input that shows it | evidently intended | confidence | as-written member | corrected member |
|---|---|---|---|---|---|---|
| battery_doctor.py:28-38 | only `FileNotFoundError` is caught, so an `OSError` such as a permission error escapes `calculate_health` and ends the monitoring loop | a design capacity file that exists but that the process may not read (the no-root case) | the comment at lines 37-38 promises 100% health whenever the files are not readable | medium, not executed | Health.UnreadableFileRaises | Health.CalculateHealthIntended |

## Left out

- Floating point: the window values are exact reals. IEEE rounding of `(val - min_val) / range_val * 7` is not modelled.
- The capacity files: each file's read outcome is an input. The file I/O and the parsing of the file text are not modelled; an unparsable text is the `Malformed` case.
- `termux-battery-status`, `termux-notification` and JSON parsing (battery_doctor.py:21-24, 61-63): these are foreign processes. Their results are inputs (`BatteryStatus`), and the notification is the boolean `ChargeAlert`.
- The meaning of "newest": the model does what the query does and takes the rows with the largest keys, not the rows inserted last. The two differ after the wall clock goes back.
- The SQLite connection, `CREATE TABLE`, `INSERT` and `commit` (battery_doctor.py:9-19, 66-72): these are persistence. The table is a sequence of rows, and the history query is `Window`.
- The `while True` loop, `time.sleep(60)`, `KeyboardInterrupt` handling and all printing (battery_doctor.py:40-77): these are periodic I/O. `NotificationsSent` models only the alert decision across ticks.
- `estimate_cycles` (battery_doctor.py:97-99) returns the constant 421 and has no algorithm. No cycle estimator is modelled.
- `calibrate`, `report` and `saver` (battery_doctor.py:101-109) only print. The module-level `calibrate` and the dedent at line 105 mean the file does not parse as shown.
- The argparse command-line dispatch (battery_doctor.py:111-127) is not modelled.
