/** The per-tick decisions of Battery Doctor's monitoring dashboard: the
    temperature indicator and the charge-complete alert. */
module Dashboard {

  /** The fields of one `termux-battery-status` reading that the dashboard uses. */
  datatype BatteryStatus = BatteryStatus(percentage: int, temperature: real, plugged: string, status: string)

  /** The three indicator emoji: red, yellow and green circles. */
  datatype Indicator = Red | Yellow | Green

  const HotAbove: real := 40.0
  const WarmAbove: real := 35.0
  const ChargeAlertPercent: int := 80

  /** The `if`/`elif`/`else` chain over the temperature in degrees Celsius. */
  function TemperatureIndicator(temp: real): (c: Indicator)
    ensures c == Red <==> temp > HotAbove
    ensures c == Yellow <==> WarmAbove < temp <= HotAbove
    ensures c == Green <==> temp <= WarmAbove
  {
    if temp > HotAbove then Red
    else if temp > WarmAbove then Yellow
    else Green
  }

  /** How alarming an indicator is: green, then yellow, then red. */
  function Severity(c: Indicator): (n: nat)
    ensures n <= 2
  {
    match c
    case Green => 0
    case Yellow => 1
    case Red => 2
  }

  /** A hotter battery never shows a milder indicator. */
  lemma IndicatorMonotone(t1: real, t2: real)
    requires t1 <= t2
    ensures Severity(TemperatureIndicator(t1)) <= Severity(TemperatureIndicator(t2))
  {
  }

  /** The smart charging alert: on AC power at 80% or more. */
  function ChargeAlert(s: BatteryStatus): (fire: bool)
    ensures s.plugged == "PLUGGED_AC" ==> (fire <==> s.percentage >= ChargeAlertPercent)
    ensures s.plugged != "PLUGGED_AC" ==> !fire
  {
    s.plugged == "PLUGGED_AC" && s.percentage >= ChargeAlertPercent
  }

  /** The threshold is inclusive: on AC power the alert fires at 80% and not at 79%;
      off AC power it never fires, even at 100%. */
  lemma ChargeAlertThreshold(plugged: string, temp: real, status: string)
    ensures ChargeAlert(BatteryStatus(80, temp, "PLUGGED_AC", status))
    ensures !ChargeAlert(BatteryStatus(79, temp, "PLUGGED_AC", status))
    ensures plugged != "PLUGGED_AC" ==> !ChargeAlert(BatteryStatus(100, temp, plugged, status))
  {
  }

  /** How many notifications a run of ticks sends: one for every tick whose
      reading meets the alert condition, since nothing is remembered between ticks. */
  function NotificationsSent(ticks: seq<BatteryStatus>): (n: nat)
    ensures n <= |ticks|
  {
    if ticks == [] then 0
    else NotificationsSent(ticks[..|ticks| - 1]) + (if ChargeAlert(ticks[|ticks| - 1]) then 1 else 0)
  }

  /** No edge triggering: while the condition holds, every tick notifies again. */
  lemma {:induction false} AlertRefiresEveryTick(ticks: seq<BatteryStatus>)
    requires forall i :: 0 <= i < |ticks| ==> ChargeAlert(ticks[i])
    ensures NotificationsSent(ticks) == |ticks|
  {
    if ticks != [] {
      AlertRefiresEveryTick(ticks[..|ticks| - 1]);
    }
  }

  /** The number of notifications is the number of ticks whose own reading
      meets the alert condition: each such tick sends exactly one, and no other
      tick sends any. */
  lemma {:induction false} CountsQualifyingTicks(ticks: seq<BatteryStatus>)
    ensures NotificationsSent(ticks) == |set i | 0 <= i < |ticks| && ChargeAlert(ticks[i])|
  {
    if ticks != [] {
      var prefix := ticks[..|ticks| - 1];
      CountsQualifyingTicks(prefix);
      var st := set i | 0 <= i < |ticks| && ChargeAlert(ticks[i]);
      var sp := set i | 0 <= i < |prefix| && ChargeAlert(prefix[i]);
      if ChargeAlert(ticks[|ticks| - 1]) {
        assert st == sp + {|ticks| - 1};
      } else {
        assert st == sp;
      }
    }
  }
}
