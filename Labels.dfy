/**
 * The hour and minute labels of the picker: integers rendered with Kotlin's
 * `toString()` and `padStart(2, '0')`, the two generated label lists, and
 * Kotlin's `String.toInt()` that turns a label back into a number when the
 * alarm is dispatched.
 */
module Labels {
  import opened Wrappers

  /** Bounds of Kotlin's 32-bit `Int`. */
  const IntMin: int := -0x8000_0000
  const IntMax: int := 0x7fff_ffff

  predicate IsDigit(c: char) {
    '0' <= c <= '9'
  }

  predicate AllDigits(s: string) {
    forall i :: 0 <= i < |s| ==> IsDigit(s[i])
  }

  function DigitChar(d: int): (c: char)
    requires 0 <= d < 10
    ensures IsDigit(c) && c as int - '0' as int == d
  {
    ('0' as int + d) as char
  }

  function DigitValue(c: char): int
    requires IsDigit(c)
  {
    c as int - '0' as int
  }

  /** The number a string of decimal digits denotes, read most significant digit first. */
  function DigitsValue(s: string): (n: nat)
    requires AllDigits(s)
  {
    if s == [] then 0 else DigitsValue(s[..|s| - 1]) * 10 + DigitValue(s[|s| - 1])
  }

  /** `n.toString()` for a non-negative `n`: its decimal digits, without leading zeros. */
  function Decimal(n: nat): (s: string)
    ensures |s| >= 1 && AllDigits(s)
    ensures n < 10 <==> |s| == 1
    ensures |s| > 1 ==> s[0] != '0'
  {
    if n < 10 then [DigitChar(n)] else Decimal(n / 10) + [DigitChar(n % 10)]
  }

  /** Kotlin's `padStart(length, padChar)`: left-pad with `pad` up to `length` characters. */
  function PadStart(s: string, length: nat, pad: char): (r: string)
    ensures |r| == if |s| >= length then |s| else length
    ensures |r| >= |s| && r[|r| - |s|..] == s
    ensures forall i :: 0 <= i < |r| - |s| ==> r[i] == pad
  {
    if |s| >= length then s else seq(length - |s|, _ => pad) + s
  }

  /** A label as shown on a selector button: `v.toString().padStart(2, '0')`. */
  function Label(v: nat): string {
    PadStart(Decimal(v), 2, '0')
  }

  /**
   * Kotlin's `String.toInt()`: an optional leading `-` or `+` followed by at
   * least one decimal digit, with the value inside the 32-bit range; any
   * other string makes it throw, which is `None` here.
   */
  function ToInt(s: string): (r: Option<int>)
    ensures r.Some? ==> IntMin <= r.value <= IntMax
  {
    if |s| == 0 then None
    else if s[0] < '0' then
      if |s| == 1 then None
      else if s[0] == '-' then
        if AllDigits(s[1..]) && DigitsValue(s[1..]) <= -IntMin then Some(-(DigitsValue(s[1..]) as int)) else None
      else if s[0] == '+' then
        if AllDigits(s[1..]) && DigitsValue(s[1..]) <= IntMax then Some(DigitsValue(s[1..])) else None
      else None
    else if AllDigits(s) && DigitsValue(s) <= IntMax then Some(DigitsValue(s))
    else None
  }

  /**
   * Kotlin's closed progression `first..last step step`: `first`, `first + step`,
   * ... as long as the term does not exceed `last`.
   */
  function Progression(first: nat, last: nat, step: nat): (r: seq<nat>)
    requires step > 0
    ensures forall i :: 0 <= i < |r| ==> r[i] == first + i * step && r[i] <= last
    ensures first + |r| * step > last
  {
    var count := if first > last then 0 else (last - first) / step + 1;
    ProgressionCount(first, last, step, count);
    seq(count, i requires 0 <= i < count => first + i * step)
  }

  /** The term count of a progression: the last term is within `last`, the next one past it. */
  lemma ProgressionCount(first: nat, last: nat, step: nat, count: nat)
    requires step > 0
    requires count == if first > last then 0 else (last - first) / step + 1
    ensures forall i :: 0 <= i < count ==> first + i * step <= last
    ensures first + count * step > last
  {
    if first <= last {
      var d, m := (last - first) / step, (last - first) % step;
      assert d * step + m == last - first && 0 <= m < step;
      forall i | 0 <= i < count ensures first + i * step <= last {
        MulMonotone(i, d, step);
      }
      assert count * step == d * step + step;
    }
  }

  lemma MulMonotone(i: nat, d: nat, step: nat)
    requires i <= d
    ensures i * step <= d * step
  {
    assert d * step == i * step + (d - i) * step;
  }

  /** The label of every value, in order: the `map` of the two lists. */
  function LabelsOf(values: seq<nat>): seq<string> {
    seq(|values|, i requires 0 <= i < |values| => Label(values[i]))
  }

  /** The bounds of the two lists: hours `0..23`, minutes `0..55 step 5`. */
  const LastHour: nat := 23
  const LastMinuteMark: nat := 55
  const MinuteStep: nat := 5

  /** `(0..23).map { it.toString().padStart(2, '0') }` */
  function HourLabels(): seq<string> {
    LabelsOf(Progression(0, LastHour, 1))
  }

  /** `(0..55 step 5).map { it.toString().padStart(2, '0') }` */
  function MinuteLabels(): seq<string> {
    LabelsOf(Progression(0, LastMinuteMark, MinuteStep))
  }

  /** `a` comes strictly before `b` in character-by-character (lexicographic) order. */
  predicate LexLess(a: string, b: string) {
    if a == [] then b != []
    else b != [] && (a[0] < b[0] || (a[0] == b[0] && LexLess(a[1..], b[1..])))
  }

  lemma {:induction false} DecimalValue(n: nat)
    ensures DigitsValue(Decimal(n)) == n
  {
    if n >= 10 {
      var s := Decimal(n);
      assert s[..|s| - 1] == Decimal(n / 10);
      DecimalValue(n / 10);
    }
  }

  /** A label of a value below 100 is exactly its tens digit followed by its units digit. */
  lemma TwoDigitLabel(v: nat)
    requires v < 100
    ensures Label(v) == [DigitChar(v / 10), DigitChar(v % 10)]
  {
    if v >= 10 {
      assert Decimal(v / 10) == [DigitChar(v / 10)];
    }
  }

  /** A label is two digits exactly for the values 0..99; larger values give longer labels. */
  lemma LabelShape(v: nat)
    ensures AllDigits(Label(v)) && |Label(v)| >= 2
    ensures |Label(v)| == 2 <==> v < 100
  {
    if v >= 100 {
      assert |Decimal(v / 10)| > 1;
    } else if v >= 10 {
      assert Decimal(v / 10) == [DigitChar(v / 10)];
    }
  }

  /** Parsing a label with `toInt()` gives back the value it was rendered from. */
  lemma LabelRoundTrip(v: nat)
    requires v <= IntMax
    ensures ToInt(Label(v)) == Some(v)
  {
    var d, l := Decimal(v), Label(v);
    DecimalValue(v);
    if |d| == 1 {
      assert l == ['0'] + d;
      assert l[..1] == ['0'] && l[..1][..0] == [];
      assert DigitsValue(l[..1]) == 0;
      assert l[1] == d[0] && d[..0] == [];
    } else {
      assert l == d;
    }
    assert AllDigits(l);
  }

  /** Different values never share a label. */
  lemma LabelInjective(a: nat, b: nat)
    requires a <= IntMax && b <= IntMax
    ensures Label(a) == Label(b) <==> a == b
  {
    LabelRoundTrip(a);
    LabelRoundTrip(b);
  }

  /** On two-character strings the order compares the first characters, then the second. */
  lemma LexLessPair(x: string, y: string)
    requires |x| == 2 && |y| == 2
    ensures LexLess(x, y) <==> x[0] < y[0] || (x[0] == y[0] && x[1] < y[1])
  {
    assert LexLess(x[1..], y[1..]) <==> x[1] < y[1] by {
      assert x[1..][1..] == [] && y[1..][1..] == [];
    }
  }

  lemma DigitCharOrder(p: int, q: int)
    requires 0 <= p < 10 && 0 <= q < 10
    ensures DigitChar(p) < DigitChar(q) <==> p < q
    ensures DigitChar(p) == DigitChar(q) <==> p == q
  {
  }

  /** On values below 100 the label order is the numeric order. */
  lemma LabelOrder(a: nat, b: nat)
    requires a < 100 && b < 100
    ensures LexLess(Label(a), Label(b)) <==> a < b
  {
    var a1, a0, b1, b0 := a / 10, a % 10, b / 10, b % 10;
    assert LexLess(Label(a), Label(b)) <==> a1 < b1 || (a1 == b1 && a0 < b0) by {
      TwoDigitLabel(a);
      TwoDigitLabel(b);
      DigitPairOrder(a1, a0, b1, b0);
    }
    TensThenUnits(a, b);
  }

  /** Two-digit strings compare by their tens digit first and by their units digit next. */
  lemma DigitPairOrder(p1: int, p0: int, q1: int, q0: int)
    requires 0 <= p1 < 10 && 0 <= p0 < 10 && 0 <= q1 < 10 && 0 <= q0 < 10
    ensures LexLess([DigitChar(p1), DigitChar(p0)], [DigitChar(q1), DigitChar(q0)]) <==>
      p1 < q1 || (p1 == q1 && p0 < q0)
  {
    DigitCharOrder(p1, q1);
    DigitCharOrder(p0, q0);
    LexLessPair([DigitChar(p1), DigitChar(p0)], [DigitChar(q1), DigitChar(q0)]);
  }

  /** Below 100, numbers compare by their tens digit first and by their units digit next. */
  lemma TensThenUnits(a: nat, b: nat)
    requires a < 100 && b < 100
    ensures a < b <==> a / 10 < b / 10 || (a / 10 == b / 10 && a % 10 < b % 10)
  {
    assert a == 10 * (a / 10) + a % 10 && b == 10 * (b / 10) + b % 10;
  }

  /** The hour list: 24 two-digit labels, entry `i` encoding hour `i`. */
  lemma HourLabelsShape()
    ensures |HourLabels()| == 24
    ensures forall i :: 0 <= i < 24 ==> HourLabels()[i] == Label(i) && |HourLabels()[i]| == 2
    ensures forall i :: 0 <= i < 24 ==> AllDigits(HourLabels()[i]) && ToInt(HourLabels()[i]) == Some(i)
  {
    assert |Progression(0, LastHour, 1)| == 24;
    forall i | 0 <= i < 24
      ensures |Label(i)| == 2 && AllDigits(Label(i)) && ToInt(Label(i)) == Some(i)
    {
      LabelShape(i);
      LabelRoundTrip(i);
    }
  }

  /** The minute list: 12 two-digit labels, entry `i` encoding minute `5 * i`. */
  lemma MinuteLabelsShape()
    ensures |MinuteLabels()| == 12
    ensures forall i :: 0 <= i < 12 ==> MinuteLabels()[i] == Label(5 * i) && |MinuteLabels()[i]| == 2
    ensures forall i :: 0 <= i < 12 ==> AllDigits(MinuteLabels()[i]) && ToInt(MinuteLabels()[i]) == Some(5 * i)
  {
    assert |Progression(0, LastMinuteMark, MinuteStep)| == 12;
    forall i | 0 <= i < 12
      ensures MinuteLabels()[i] == Label(5 * i)
      ensures |Label(5 * i)| == 2 && AllDigits(Label(5 * i)) && ToInt(Label(5 * i)) == Some(5 * i)
    {
      assert Progression(0, LastMinuteMark, MinuteStep)[i] == 5 * i;
      LabelShape(5 * i);
      LabelRoundTrip(5 * i);
    }
  }

  /** Both lists are strictly increasing in label order, hence pairwise distinct. */
  lemma LabelListsIncreasing()
    ensures forall i, j :: 0 <= i < j < |HourLabels()| ==> LexLess(HourLabels()[i], HourLabels()[j])
    ensures forall i, j :: 0 <= i < j < |MinuteLabels()| ==> LexLess(MinuteLabels()[i], MinuteLabels()[j])
    ensures forall i, j :: 0 <= i < |HourLabels()| && 0 <= j < |HourLabels()| && i != j ==>
      HourLabels()[i] != HourLabels()[j]
    ensures forall i, j :: 0 <= i < |MinuteLabels()| && 0 <= j < |MinuteLabels()| && i != j ==>
      MinuteLabels()[i] != MinuteLabels()[j]
  {
    HourLabelsShape();
    MinuteLabelsShape();
    forall i, j | 0 <= i < j < 24 ensures LexLess(HourLabels()[i], HourLabels()[j]) {
      LabelOrder(i, j);
    }
    forall i, j | 0 <= i < j < 12 ensures LexLess(MinuteLabels()[i], MinuteLabels()[j]) {
      LabelOrder(5 * i, 5 * j);
    }
    forall i, j | 0 <= i < 24 && 0 <= j < 24 && i != j ensures HourLabels()[i] != HourLabels()[j] {
      LabelInjective(i, j);
    }
    forall i, j | 0 <= i < 12 && 0 <= j < 12 && i != j ensures MinuteLabels()[i] != MinuteLabels()[j] {
      LabelInjective(5 * i, 5 * j);
    }
  }

  /**
   * A string is in the hour list exactly when it parses to an hour 0..23 and
   * is that hour's label.
   */
  lemma HourLabelMembership(text: string)
    ensures text in HourLabels() <==>
      ToInt(text).Some? && 0 <= ToInt(text).value < 24 && text == Label(ToInt(text).value)
  {
    assert |HourLabels()| == 24 by { HourLabelsShape(); }
    if text in HourLabels() {
      var i :| 0 <= i < 24 && HourLabels()[i] == text;
      HourLabelAt(i);
    }
    if ToInt(text).Some? && 0 <= ToInt(text).value < 24 && text == Label(ToInt(text).value) {
      HourLabelAt(ToInt(text).value);
    }
  }

  lemma HourLabelAt(h: nat)
    requires h < 24
    ensures HourLabels()[h] == Label(h) && ToInt(Label(h)) == Some(h)
    ensures Label(h) in HourLabels()
  {
    HourLabelsShape();
  }

  /**
   * A string is in the minute list exactly when it parses to a multiple of
   * five in 0..55 and is that minute's label.
   */
  lemma MinuteLabelMembership(text: string)
    ensures text in MinuteLabels() <==>
      ToInt(text).Some? && 0 <= ToInt(text).value <= 55 && ToInt(text).value % 5 == 0 &&
      text == Label(ToInt(text).value)
  {
    if text in MinuteLabels() {
      ListedMinuteParses(text);
    } else {
      var r := ToInt(text);
      if r.Some? && 0 <= r.value <= 55 && r.value % 5 == 0 && text == Label(r.value) {
        MinuteLabelAt(r.value);
      }
    }
  }

  lemma ListedMinuteParses(text: string)
    requires text in MinuteLabels()
    ensures ToInt(text).Some? && 0 <= ToInt(text).value <= 55 && ToInt(text).value % 5 == 0
    ensures text == Label(ToInt(text).value)
  {
    assert |MinuteLabels()| == 12 by { MinuteLabelsShape(); }
    var i :| 0 <= i < 12 && MinuteLabels()[i] == text;
    MinuteLabelAtIndex(i);
  }

  lemma MinuteLabelAtIndex(i: nat)
    requires i < 12
    ensures MinuteLabels()[i] == Label(5 * i) && ToInt(Label(5 * i)) == Some(5 * i)
    ensures (5 * i) % 5 == 0 && 5 * i <= 55
  {
    MinuteLabelsShape();
    MultipleOfFive(i);
  }

  lemma MultipleOfFive(i: nat)
    ensures (5 * i) % 5 == 0
  {
  }

  lemma MinuteLabelAt(m: nat)
    requires m <= 55 && m % 5 == 0
    ensures MinuteLabels()[m / 5] == Label(m) && ToInt(Label(m)) == Some(m)
    ensures Label(m) in MinuteLabels()
  {
    MinuteLabelsShape();
    var i := m / 5;
    assert 5 * i == m;
  }
}
