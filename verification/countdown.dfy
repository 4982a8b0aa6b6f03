/** The countdown timer: splitting a remaining time in milliseconds into
    days, hours, minutes and seconds, and rendering each field as the text
    `n.toString().padStart(2, '0')` produces. */
module Countdown {

  const MsPerSecond: nat := 1000
  const MsPerMinute: nat := 60_000
  const MsPerHour: nat := 3_600_000
  const MsPerDay: nat := 86_400_000

  /** The remaining time the page computes on every tick: the target is
      rebuilt as "now + 30 days" each time, so (away from a daylight-saving
      change) it is always 30 whole days. */
  const ThirtyDaysMs: nat := 2_592_000_000

  datatype Fields = Fields(days: nat, hours: nat, minutes: nat, seconds: nat)

  /** Fixed-radix split of a non-negative millisecond count (floor division
      and remainder agree with JavaScript's on non-negative numbers). */
  function Decompose(t: nat): (f: Fields)
    ensures f.hours < 24 && f.minutes < 60 && f.seconds < 60
  {
    Fields(t / MsPerDay,
           (t % MsPerDay) / MsPerHour,
           (t % MsPerHour) / MsPerMinute,
           (t % MsPerMinute) / MsPerSecond)
  }

  /** The number of milliseconds a field record stands for. */
  function Compose(f: Fields): nat
  {
    f.days * MsPerDay + f.hours * MsPerHour + f.minutes * MsPerMinute + f.seconds * MsPerSecond
  }

  predicate InRange(f: Fields)
  {
    f.hours < 24 && f.minutes < 60 && f.seconds < 60
  }

  // Quotient and remainder by each radix are determined by the division equation.

  lemma DivModDay(x: nat, q: nat, r: nat)
    requires r < MsPerDay && x == q * MsPerDay + r
    ensures x / MsPerDay == q && x % MsPerDay == r
  {
  }

  lemma DivModHour(x: nat, q: nat, r: nat)
    requires r < MsPerHour && x == q * MsPerHour + r
    ensures x / MsPerHour == q && x % MsPerHour == r
  {
  }

  lemma DivModMinute(x: nat, q: nat, r: nat)
    requires r < MsPerMinute && x == q * MsPerMinute + r
    ensures x / MsPerMinute == q && x % MsPerMinute == r
  {
  }

  lemma DivModSecond(x: nat, q: nat, r: nat)
    requires r < MsPerSecond && x == q * MsPerSecond + r
    ensures x / MsPerSecond == q && x % MsPerSecond == r
  {
  }

  /** Exact reconstruction: the four fields and the sub-second remainder add
      back up to the input. */
  lemma {:induction false} DecomposeReconstructs(t: nat)
    ensures Compose(Decompose(t)) + t % MsPerSecond == t
  {
    var d, r1 := t / MsPerDay, t % MsPerDay;
    var h, r2 := r1 / MsPerHour, r1 % MsPerHour;
    var m, r3 := r2 / MsPerMinute, r2 % MsPerMinute;
    var s, r4 := r3 / MsPerSecond, r3 % MsPerSecond;
    DivModHour(t, d * 24 + h, r2);
    DivModMinute(t, (d * 24 + h) * 60 + m, r3);
    DivModSecond(t, ((d * 24 + h) * 60 + m) * 60 + s, r4);
  }

  /** The converse: a field record within range, plus fewer than 1000
      milliseconds, decomposes back into the same record. */
  lemma {:induction false} ComposeDecomposes(f: Fields, ms: nat)
    requires InRange(f) && ms < MsPerSecond
    ensures Decompose(Compose(f) + ms) == f
  {
    var t := Compose(f) + ms;
    var s := f.seconds * MsPerSecond + ms;
    var m := f.minutes * MsPerMinute + s;
    var h := f.hours * MsPerHour + m;
    DivModDay(t, f.days, h);
    DivModHour(h, f.hours, m);
    DivModHour(t, f.days * 24 + f.hours, m);
    DivModMinute(m, f.minutes, s);
    DivModMinute(t, (f.days * 24 + f.hours) * 60 + f.minutes, s);
    DivModSecond(s, f.seconds, ms);
  }

  // ---------------------------------------------------------------------
  // Decimal text: Number.prototype.toString on a non-negative integer

  function DigitChar(d: nat): (c: char)
    requires d < 10
    ensures '0' <= c <= '9'
  {
    "0123456789"[d]
  }

  function DigitValue(c: char): nat
  {
    if '0' <= c <= '9' then (c - '0') as nat else 0
  }

  predicate IsDigits(s: string)
  {
    forall i :: 0 <= i < |s| ==> '0' <= s[i] <= '9'
  }

  /** Decimal digits of n, most significant first, without leading zeros. */
  function ToDecimal(n: nat): (s: string)
    ensures |s| >= 1 && IsDigits(s)
    ensures n >= 10 <==> |s| >= 2
    ensures n > 0 ==> s[0] != '0'
    ensures n < 100 ==> |s| <= 2
    decreases n
  {
    if n < 10 then [DigitChar(n)] else ToDecimal(n / 10) + [DigitChar(n % 10)]
  }

  /** The value a string of decimal digits denotes (leading zeros allowed). */
  function ParseDecimal(s: string): nat
    decreases |s|
  {
    if s == [] then 0 else ParseDecimal(s[..|s| - 1]) * 10 + DigitValue(s[|s| - 1])
  }

  lemma DigitRoundTrip(d: nat)
    requires d < 10
    ensures DigitValue(DigitChar(d)) == d
  {
  }

  /** Round trip: reading back the rendered digits gives the number. */
  lemma {:induction false} DecimalRoundTrip(n: nat)
    ensures ParseDecimal(ToDecimal(n)) == n
    decreases n
  {
    var s := ToDecimal(n);
    if n < 10 {
      DigitRoundTrip(n);
      assert s[..0] == [];
    } else {
      DecimalRoundTrip(n / 10);
      DigitRoundTrip(n % 10);
      assert s[..|s| - 1] == ToDecimal(n / 10);
    }
  }

  /** A leading zero does not change the value read. */
  lemma {:induction false} ParseLeadingZero(s: string)
    ensures ParseDecimal(['0'] + s) == ParseDecimal(s)
    decreases |s|
  {
    if s != [] {
      var t := ['0'] + s;
      assert t[..|t| - 1] == ['0'] + s[..|s| - 1];
      ParseLeadingZero(s[..|s| - 1]);
    } else {
      assert (['0'] + s)[..0] == [];
    }
  }

  // ---------------------------------------------------------------------
  // String.prototype.padStart with a one-character pad string

  function Repeat(c: char, k: nat): (r: string)
    ensures |r| == k && forall i :: 0 <= i < k ==> r[i] == c
  {
    if k == 0 then [] else [c] + Repeat(c, k - 1)
  }

  /** Pads s on the left with `fill` up to `width` characters; a string
      already that long is returned unchanged, never truncated. */
  function PadStart(s: string, width: nat, fill: char): (r: string)
    ensures |s| >= width ==> r == s
    ensures |s| < width ==> |r| == width
    ensures |r| >= |s| && r[|r| - |s|..] == s
    ensures forall i :: 0 <= i < |r| - |s| ==> r[i] == fill
  {
    if |s| >= width then s else Repeat(fill, width - |s|) + s
  }

  /** One countdown field as displayed: `value.toString().padStart(2, '0')`.
      The text is all digits, never shorter than two, and reads back as n. */
  function Render(n: nat): (r: string)
    ensures |r| >= 2 && IsDigits(r)
    ensures ParseDecimal(r) == n
  {
    var digits := ToDecimal(n);
    DecimalRoundTrip(n);
    if |digits| >= 2 then digits
    else
      ParseLeadingZero(digits);
      assert PadStart(digits, 2, '0') == ['0'] + digits;
      PadStart(digits, 2, '0')
  }

  /** Two-digit padding: a single digit gets one leading '0', anything from
      10 up is its own decimal text, and below 100 the text is exactly two
      characters. */
  lemma RenderShape(n: nat)
    ensures n < 10 ==> Render(n) == ['0', DigitChar(n)]
    ensures n >= 10 ==> Render(n) == ToDecimal(n)
    ensures n < 100 ==> |Render(n)| == 2
  {
    if n < 10 {
      assert Render(n) == ['0'] + ToDecimal(n);
    }
  }

  // ---------------------------------------------------------------------
  // The display update of one tick

  /** A display slot: the element is missing from the page, or shows a text. */
  datatype Slot = Absent | Shown(text: string)

  datatype Display = Display(days: Slot, hours: Slot, minutes: Slot, seconds: Slot)

  /** A present element gets the rendered value; a missing one is skipped. */
  function SetSlot(s: Slot, value: nat): Slot
  {
    if s.Absent? then Absent else Shown(Render(value))
  }

  /** The display after one tick with `remaining` milliseconds left: a slot
      is present afterwards exactly when it was before. */
  function Tick(d: Display, remaining: nat): (r: Display)
    ensures r.days.Absent? <==> d.days.Absent?
    ensures r.hours.Absent? <==> d.hours.Absent?
    ensures r.minutes.Absent? <==> d.minutes.Absent?
    ensures r.seconds.Absent? <==> d.seconds.Absent?
  {
    var f := Decompose(remaining);
    Display(SetSlot(d.days, f.days), SetSlot(d.hours, f.hours),
            SetSlot(d.minutes, f.minutes), SetSlot(d.seconds, f.seconds))
  }

  /** A slot's text is made of decimal digits, has the given length bounds,
      reads back as the value, and from 10 up has no leading zero. */
  predicate ShowsValue(s: Slot, value: nat, exactlyTwo: bool)
  {
    s.Shown? ==> IsDigits(s.text) && ParseDecimal(s.text) == value &&
                 (if exactlyTwo then |s.text| == 2 else |s.text| >= 2) &&
                 (value >= 10 ==> s.text[0] != '0')
  }

  /** Every present slot shows decimal digits: exactly two for hours, minutes
      and seconds, at least two for days, each reading back as its field and
      padded with a '0' only below 10. */
  lemma TickDisplay(d: Display, remaining: nat)
    ensures var r := Tick(d, remaining); var f := Decompose(remaining);
      ShowsValue(r.days, f.days, false) && ShowsValue(r.hours, f.hours, true) &&
      ShowsValue(r.minutes, f.minutes, true) && ShowsValue(r.seconds, f.seconds, true)
  {
    var f := Decompose(remaining);
    RenderShape(f.days);
    RenderShape(f.hours);
    RenderShape(f.minutes);
    RenderShape(f.seconds);
  }

  /** A display with all four elements present. */
  predicate AllShown(d: Display)
  {
    d.days.Shown? && d.hours.Shown? && d.minutes.Shown? && d.seconds.Shown?
  }

  /** What the page actually shows: the target is rebuilt on every tick, so
      the remaining time is always 30 days and the display never moves,
      whatever it showed before. */
  lemma ThirtyDaysDisplay(d: Display)
    requires AllShown(d)
    ensures Tick(d, ThirtyDaysMs) == Display(Shown("30"), Shown("00"), Shown("00"), Shown("00"))
  {
    ThirtyDaysFields();
    RenderThirtyAndZero();
  }

  lemma ThirtyDaysFields()
    ensures Decompose(ThirtyDaysMs) == Fields(30, 0, 0, 0)
  {
    ComposeDecomposes(Fields(30, 0, 0, 0), 0);
  }

  lemma RenderThirtyAndZero()
    ensures Render(30) == "30" && Render(0) == "00"
  {
    assert DigitChar(3) == '3' && DigitChar(0) == '0';
    assert ToDecimal(30) == ToDecimal(3) + [DigitChar(0)];
    assert ToDecimal(30) == "30";
    assert ToDecimal(0) == "0";
  }
}
