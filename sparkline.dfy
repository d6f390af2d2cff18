/** The capacity-history sparkline of Battery Doctor: the window of the ten
    newest capacity readings and its min-max quantization into eight bar glyphs. */
module Sparkline {

  /** The `bars` alphabet, lowest level first: a blank, then seven block heights. */
  const Bars: seq<char> := [' ', '\U{2582}', '\U{2583}', '\U{2584}', '\U{2585}', '\U{2586}', '\U{2587}', '\U{2588}']

  /** The highest bar index, `len(bars) - 1`. */
  const Top: int := 7

  /** How many of the newest rows the history query returns (`LIMIT 10`). */
  const WindowSize: nat := 10

  /** One row of the `stats` table. The timestamp stands for the text key
      `datetime.now().isoformat()`, naive local wall-clock time, and its integer
      order is the key's text order. That order is the insertion order only while
      the clock never goes back. The `capacity` column holds the health
      percentage logged on that tick. */
  datatype Sample = Sample(timestamp: int, level: int, capacity: real, temp: real, status: string)

  /** The table listed in strictly increasing key order, the order the query
      sorts by (the timestamp is the primary key, so keys are distinct). */
  predicate KeyOrdered(rows: seq<Sample>) {
    forall i, j :: 0 <= i < j < |rows| ==> rows[i].timestamp < rows[j].timestamp
  }

  /** The last `n` rows (or all, when there are fewer), newest first. */
  function NewestRows(rows: seq<Sample>, n: nat): (w: seq<Sample>)
    ensures |w| == if |rows| < n then |rows| else n
    ensures forall i :: 0 <= i < |w| ==> w[i] == rows[|rows| - 1 - i]
  {
    if n == 0 || rows == [] then []
    else [rows[|rows| - 1]] + NewestRows(rows[..|rows| - 1], n - 1)
  }

  /** `SELECT capacity FROM stats ORDER BY timestamp DESC LIMIT 10`. */
  function Window(rows: seq<Sample>): (values: seq<real>)
    ensures |values| <= WindowSize
  {
    var newest := NewestRows(rows, WindowSize);
    seq(|newest|, i requires 0 <= i < |newest| => newest[i].capacity)
  }

  /** On a table listed in key order the window is exactly what the query
      selects: the min(10, |rows|) rows with the largest keys, their capacities
      in descending key order, and every row left out has a smaller key than
      every row taken. */
  lemma WindowIsNewestFirst(rows: seq<Sample>)
    requires KeyOrdered(rows)
    ensures |Window(rows)| == if |rows| < WindowSize then |rows| else WindowSize
    ensures forall i :: 0 <= i < |Window(rows)| ==> Window(rows)[i] == rows[|rows| - 1 - i].capacity
    ensures var w := NewestRows(rows, WindowSize);
            forall i, j :: 0 <= i < j < |w| ==> w[i].timestamp > w[j].timestamp
    ensures var w := NewestRows(rows, WindowSize);
            forall k, i :: 0 <= k < |rows| - |w| && 0 <= i < |w| ==> rows[k].timestamp < w[i].timestamp
  {
    var w := NewestRows(rows, WindowSize);
    forall i, j | 0 <= i < j < |w| ensures w[i].timestamp > w[j].timestamp {
      assert w[i] == rows[|rows| - 1 - i] && w[j] == rows[|rows| - 1 - j];
    }
    forall k, i | 0 <= k < |rows| - |w| && 0 <= i < |w| ensures rows[k].timestamp < w[i].timestamp {
      assert w[i] == rows[|rows| - 1 - i];
    }
  }

  /** Python's `int()` on a float: truncation toward zero, the integer closest
      to `x` on the side of zero. */
  function Trunc(x: real): (n: int)
    ensures 0.0 <= x ==> n as real <= x < n as real + 1.0
    ensures x < 0.0 ==> n as real - 1.0 < x <= n as real
  {
    if x >= 0.0 then x.Floor else -((-x).Floor)
  }

  function Min(a: int, b: int): int {
    if a <= b then a else b
  }

  /** `min(values)`. */
  function Smallest(s: seq<real>): (m: real)
    requires s != []
    ensures m in s
    ensures forall i :: 0 <= i < |s| ==> m <= s[i]
  {
    if |s| == 1 then s[0]
    else
      var rest := Smallest(s[1..]);
      if s[0] <= rest then s[0] else rest
  }

  /** `max(values)`. */
  function Largest(s: seq<real>): (m: real)
    requires s != []
    ensures m in s
    ensures forall i :: 0 <= i < |s| ==> s[i] <= m
  {
    if |s| == 1 then s[0]
    else
      var rest := Largest(s[1..]);
      if s[0] >= rest then s[0] else rest
  }

  /** `range_val`: the spread of the window, or 1 when every value is equal. */
  function Spread(lo: real, hi: real): (r: real)
    ensures 0.0 < r
    ensures lo < hi ==> lo + r == hi
  {
    if hi > lo then hi - lo else 1.0
  }

  /** The unclamped index `int((v - lo) / range_val * 7)` of a value `v` in a
      window whose minimum is `lo`. */
  function Level(v: real, lo: real, spread: real): (n: int)
    requires 0.0 < spread
    ensures lo <= v ==> 0 <= n
  {
    NonNegativeScaled(v - lo, spread);
    Trunc((v - lo) / spread * Top as real)
  }

  /** The bar index of one value `v` of a window whose minimum is `lo` and
      maximum is `hi`: the level clamped by `min(…, 7)`. */
  function BarIndex(v: real, lo: real, hi: real): (k: int)
    ensures k <= Top
    ensures lo <= v ==> 0 <= k
  {
    Min(Level(v, lo, Spread(lo, hi)), Top)
  }

  lemma NonNegativeScaled(d: real, r: real)
    requires 0.0 < r
    ensures 0.0 <= d ==> 0.0 <= d / r * Top as real
  {
  }

  /** The glyph index of every value of the window, in window order. */
  function Quantize(values: seq<real>): (q: seq<int>)
    ensures |q| == |values|
    ensures forall i :: 0 <= i < |q| ==> 0 <= q[i] < |Bars|
  {
    if values == [] then []
    else
      var lo, hi := Smallest(values), Largest(values);
      seq(|values|, i requires 0 <= i < |values| => BarIndex(values[i], lo, hi))
  }

  /** Dividing by a positive spread and scaling by `Top` keeps the order of values. */
  lemma ScaledMonotone(a: real, b: real, r: real)
    requires 0.0 < r && a <= b
    ensures a / r * Top as real <= b / r * Top as real
  {
    assert a / r <= b / r by {
      assert a / r * r == a && b / r * r == b;
    }
  }

  /** Bar indices are monotone in the value: a larger reading never gets a
      lower bar than a smaller one of the same window. */
  lemma BarIndexMonotone(a: real, b: real, lo: real, hi: real)
    requires a <= b
    ensures BarIndex(a, lo, hi) <= BarIndex(b, lo, hi)
  {
    var r := Spread(lo, hi);
    ScaledMonotone(a - lo, b - lo, r);
    var qa, qb := (a - lo) / r * Top as real, (b - lo) / r * Top as real;
    assert Trunc(qa) <= Trunc(qb) by {
      if qa < 0.0 && 0.0 <= qb {
        assert -((-qa).Floor) <= 0;
      } else if qa < 0.0 {
        assert (-qb).Floor <= (-qa).Floor;
      }
    }
  }

  /** Quantization is monotone within a window: `a <= b` gives `index(a) <= index(b)`. */
  lemma QuantizeMonotone(values: seq<real>, i: int, j: int)
    requires 0 <= i < |values| && 0 <= j < |values|
    requires values[i] <= values[j]
    ensures Quantize(values)[i] <= Quantize(values)[j]
  {
    BarIndexMonotone(values[i], values[j], Smallest(values), Largest(values));
  }

  /** Inside the window the clamp `min(index, 7)` never binds: in exact
      arithmetic the truncated index of a value between the minimum and the
      maximum already lies in 0..7. */
  lemma ClampIsIdle(v: real, lo: real, hi: real)
    requires lo <= v <= hi
    ensures 0 <= Level(v, lo, Spread(lo, hi)) <= Top
  {
    var r := Spread(lo, hi);
    NonNegativeScaled(v - lo, r);
    if lo < hi {
      ScaledMonotone(v - lo, hi - lo, r);
      assert (hi - lo) / r == 1.0;
    } else {
      assert v - lo == 0.0;
    }
  }

  /** The minimum of a window always takes the blank bar. */
  lemma BarIndexAtMin(lo: real, hi: real)
    ensures BarIndex(lo, lo, hi) == 0
  {
    assert (lo - lo) / Spread(lo, hi) * Top as real == 0.0;
  }

  /** The maximum of a window that is not flat takes the full block. */
  lemma BarIndexAtMax(lo: real, hi: real)
    requires lo < hi
    ensures BarIndex(hi, lo, hi) == Top
  {
    var r := Spread(lo, hi);
    assert (hi - lo) / r == 1.0;
    assert (hi - lo) / r * Top as real == Top as real;
  }

  /** When the window is not flat, every occurrence of its minimum gets the blank
      bar and every occurrence of its maximum gets the full block. */
  lemma ExtremesLand(values: seq<real>, i: int)
    requires 0 <= i < |values|
    requires Smallest(values) < Largest(values)
    ensures values[i] == Smallest(values) ==> Quantize(values)[i] == 0
    ensures values[i] == Largest(values) ==> Quantize(values)[i] == Top
  {
    var lo, hi := Smallest(values), Largest(values);
    assert Quantize(values)[i] == BarIndex(values[i], lo, hi);
    BarIndexAtMin(lo, hi);
    BarIndexAtMax(lo, hi);
  }

  /** All bars of a non-empty window are blank exactly when all its values are
      equal: a flat window uses `range_val = 1` and maps every value to index 0,
      and any other window puts its maximum on the full block. */
  lemma FlatWindowIsBlank(values: seq<real>)
    requires values != []
    ensures (forall i :: 0 <= i < |values| ==> values[i] == values[0]) <==>
            (forall i :: 0 <= i < |values| ==> Quantize(values)[i] == 0)
  {
    var lo, hi := Smallest(values), Largest(values);
    if forall i :: 0 <= i < |values| ==> values[i] == values[0] {
      assert lo == hi by {
        assert lo in values && hi in values;
      }
      forall i | 0 <= i < |values| ensures Quantize(values)[i] == 0 {
        assert values[i] - lo == 0.0;
        assert (values[i] - lo) / Spread(lo, hi) * Top as real == 0.0;
      }
    } else {
      var k :| 0 <= k < |values| && values[k] != values[0];
      assert lo < hi by {
        assert lo <= values[k] <= hi && lo <= values[0] <= hi;
      }
      var m :| 0 <= m < |values| && values[m] == hi;
      ExtremesLand(values, m);
    }
  }

  /** An empty window quantizes to nothing. */
  lemma QuantizeEmpty()
    ensures Quantize([]) == []
  {
  }

  /** A flat window takes the `range_val = 1` path: every bar is blank. */
  lemma QuantizeFlatExample()
    ensures Quantize([5.0, 5.0, 5.0]) == [0, 0, 0]
  {
    var w := [5.0, 5.0, 5.0];
    assert Smallest(w) == 5.0 && Largest(w) == 5.0 by {
      assert w[1..] == [5.0, 5.0] && w[1..][1..] == [5.0];
    }
    BarIndexAtMin(5.0, 5.0);
    var q := Quantize(w);
    assert q[0] == 0 && q[1] == 0 && q[2] == 0;
  }

  /** `[0, 50, 100]` gives indices `[0, 3, 7]`: 50 maps to floor(3.5). */
  lemma QuantizeSpreadExample()
    ensures Quantize([0.0, 50.0, 100.0]) == [0, 3, 7]
  {
    var w := [0.0, 50.0, 100.0];
    assert Smallest(w) == 0.0 && Largest(w) == 100.0 by {
      assert w[1..] == [50.0, 100.0] && w[1..][1..] == [100.0];
    }
    BarIndexAtMin(0.0, 100.0);
    assert BarIndex(50.0, 0.0, 100.0) == 3 by {
      assert (50.0 - 0.0) / Spread(0.0, 100.0) * Top as real == 3.5;
    }
    BarIndexAtMax(0.0, 100.0);
    var q := Quantize(w);
    assert q[0] == 0 && q[1] == 3 && q[2] == 7;
  }

  /** The sparkline text of a window: one bar per value, in window order. */
  method RenderSparkline(values: seq<real>) returns (line: string)
    ensures |line| == |values|
    ensures forall i :: 0 <= i < |values| ==> line[i] == Bars[Quantize(values)[i]]
  {
    line := "";
    if values != [] {
      var lo := Smallest(values);
      var hi := Largest(values);
      var spread := if hi > lo then hi - lo else 1.0;
      assert spread == Spread(lo, hi);
      ghost var q := Quantize(values);
      for k := 0 to |values|
        invariant |line| == k
        invariant forall i :: 0 <= i < k ==> line[i] == Bars[q[i]]
      {
        var index := Level(values[k], lo, spread);
        assert Min(index, Top) == q[k];
        line := line + [Bars[Min(index, Top)]];
      }
    }
  }

  /** `get_capacity_history_sparkline`: the sparkline of the ten capacity
      readings with the largest keys, largest key first; an empty table gives
      the empty text. */
  method CapacityHistorySparkline(rows: seq<Sample>) returns (line: string)
    ensures |line| == |Window(rows)| && |line| <= WindowSize
    ensures rows == [] ==> line == ""
    ensures forall i :: 0 <= i < |line| ==> line[i] == Bars[Quantize(Window(rows))[i]]
    // Glyph `i` draws row `i` of NewestRows(rows, WindowSize).
    ensures var drawn := NewestRows(rows, WindowSize);
            |drawn| == |line| && forall i :: 0 <= i < |line| ==> Window(rows)[i] == drawn[i].capacity
    // On a table listed in key order, those rows are in descending key order,
    // and every row left out has a smaller key than every row drawn.
    ensures var drawn := NewestRows(rows, WindowSize);
            KeyOrdered(rows) ==>
              |line| == (if |rows| < WindowSize then |rows| else WindowSize) &&
              (forall i, j :: 0 <= i < j < |drawn| ==> drawn[i].timestamp > drawn[j].timestamp) &&
              (forall k, i :: 0 <= k < |rows| - |drawn| && 0 <= i < |drawn| ==> rows[k].timestamp < drawn[i].timestamp)
  {
    var values := Window(rows);
    line := RenderSparkline(values);
    if KeyOrdered(rows) {
      WindowIsNewestFirst(rows);
    }
  }
}
