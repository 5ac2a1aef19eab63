/** WithdrawRequest: the rules a withdraw payload must satisfy and the
    message each broken rule reports, evaluated the way the framework's
    validator evaluates a rule list:

    - the attributes are checked in the order the rules are declared, each
      attribute's rules from left to right;
    - `required` and `required_if` are implicit rules: they are checked even
      when the attribute is missing;
    - any other rule is skipped when the attribute is missing or is a string
      that `trim` leaves empty, and, when the attribute carries `nullable`,
      also when it is null;
    - after an implicit rule fails, the attribute's remaining rules are not
      checked;
    - a broken rule is reported with the custom message registered under
      "attribute.rule", or else with the framework's own message for that rule. */
module WithdrawRequest {
  import opened Common
  import opened Model

  // ---------------------------------------------------------------------------
  // Decoded JSON values

  /** A decimal number `units / 10^scale`. */
  datatype Decimal = Decimal(units: int, scale: nat)

  datatype Value =
    | Null
    | Bool(b: bool)
    | Number(n: Decimal)
    | Text(s: string)
    | List(items: seq<Value>)
    | Object(fields: map<string, Value>)

  /** The decoded request body. */
  type Payload = map<string, Value>

  function Pow10(k: nat): (p: nat)
    ensures p >= 1
  {
    if k == 0 then 1 else 10 * Pow10(k - 1)
  }

  // ---------------------------------------------------------------------------
  // Numeric strings (`is_numeric`)

  /** The white space `is_numeric` allows around a number. */
  predicate IsNumericSpace(c: char) {
    c == ' ' || c == '\t' || c == '\n' || c == '\r' || c == '\U{0B}' || c == '\U{0C}'
  }

  function TrimStart(s: string): (r: string)
    ensures |r| <= |s| && r == s[|s| - |r|..]
    ensures r != [] ==> !IsNumericSpace(r[0])
    decreases |s|
  {
    if s != [] && IsNumericSpace(s[0]) then TrimStart(s[1..]) else s
  }

  function TrimEnd(s: string): (r: string)
    ensures |r| <= |s| && r == s[..|r|]
    ensures r != [] ==> !IsNumericSpace(r[|r| - 1])
    decreases |s|
  {
    if s != [] && IsNumericSpace(s[|s| - 1]) then TrimEnd(s[..|s| - 1]) else s
  }

  function IndexOf(s: string, c: char): (r: Option<nat>)
    ensures r.Some? ==> r.value < |s| && s[r.value] == c && c !in s[..r.value]
    ensures r.None? ==> c !in s
    decreases |s|
  {
    if s == [] then None
    else if s[0] == c then Some(0)
    else match IndexOf(s[1..], c)
      case None => None
      case Some(k) => assert s[1..][..k] == s[1..k + 1]; Some(k + 1)
  }

  /** Digits with at most one decimal point and at least one digit. */
  function Mantissa(b: string): (r: Option<Decimal>)
    ensures r.Some? ==> exists i :: 0 <= i < |b| && IsDigit(b[i])
    ensures r.Some? ==> r.value.units >= 0
    ensures AllDigits(b) && b != [] ==> r == Some(Decimal(DigitsValue(b), 0))
  {
    match IndexOf(b, '.')
    case None =>
      if AllDigits(b) && b != [] then Some(Decimal(DigitsValue(b), 0)) else None
    case Some(k) =>
      var whole := b[..k];
      var fraction := b[k + 1..];
      if AllDigits(whole) && AllDigits(fraction) && |whole| + |fraction| >= 1 then
        assert if whole != [] then b[0] == whole[0] else b[k + 1] == fraction[0];
        Some(Decimal(DigitsValue(whole + fraction), |fraction|))
      else
        None
  }

  /** The position of the first exponent mark `e` or `E`, if any. */
  function ExponentMark(s: string): (r: Option<nat>)
    ensures r.Some? ==> r.value < |s| && (s[r.value] == 'e' || s[r.value] == 'E')
    ensures r.Some? ==> forall j :: 0 <= j < r.value ==> s[j] != 'e' && s[j] != 'E'
    ensures r.None? ==> forall j :: 0 <= j < |s| ==> s[j] != 'e' && s[j] != 'E'
    decreases |s|
  {
    if s == [] then None
    else if s[0] == 'e' || s[0] == 'E' then Some(0)
    else match ExponentMark(s[1..])
      case None => None
      case Some(k) => Some(k + 1)
  }

  /** The digits after an exponent mark, with an optional sign. */
  function Exponent(x: string): (r: Option<int>)
    ensures AllDigits(x) && x != [] ==> r == Some(DigitsValue(x))
    ensures x != [] && x[0] == '-' && AllDigits(x[1..]) && x[1..] != [] ==> r == Some(-(DigitsValue(x[1..]) as int))
    ensures r.Some? ==> x != [] && (AllDigits(x) || ((x[0] == '+' || x[0] == '-') && AllDigits(x[1..]) && x[1..] != []))
  {
    if x != [] && (x[0] == '+' || x[0] == '-') then
      if AllDigits(x[1..]) && x[1..] != [] then
        var magnitude: int := DigitsValue(x[1..]);
        Some(if x[0] == '-' then -magnitude else magnitude)
      else None
    else if AllDigits(x) && x != [] then Some(DigitsValue(x))
    else None
  }

  /** `d * 10^e`, kept exact. */
  function Shift(d: Decimal, e: int): (r: Decimal)
    ensures d.units >= 0 ==> r.units >= 0
  {
    if e < 0 then Decimal(d.units, d.scale - e)
    else if e <= d.scale then Decimal(d.units, d.scale - e)
    else Decimal(d.units * Pow10(e - d.scale), 0)
  }

  /** The shifted decimal denotes `d * 10^e`: cross-multiplied, `r / 10^r.scale`
      equals `d / 10^d.scale` times `10^e` (or divided by `10^-e`). */
  lemma ShiftScales(d: Decimal, e: int)
    ensures var r := Shift(d, e);
            e >= 0 ==> r.units * Pow10(d.scale) == d.units * Pow10(e) * Pow10(r.scale)
    ensures var r := Shift(d, e);
            e < 0 ==> r.units * Pow10(d.scale) * Pow10(-e) == d.units * Pow10(r.scale)
  {
    var r := Shift(d, e);
    if e < 0 {
      Pow10Add(d.scale, -e);
      assert r.scale == d.scale + -e;
      MulAssoc(d.units, Pow10(d.scale), Pow10(-e));
    } else if e <= d.scale {
      Pow10Add(e, d.scale - e);
      assert Pow10(d.scale) == Pow10(e) * Pow10(r.scale);
      MulAssoc(d.units, Pow10(e), Pow10(r.scale));
    } else {
      Pow10Add(e - d.scale, d.scale);
      assert Pow10(e) == Pow10(e - d.scale) * Pow10(d.scale);
      assert Pow10(r.scale) == 1;
      MulAssoc(d.units, Pow10(e - d.scale), Pow10(d.scale));
    }
  }

  lemma MulAssoc(a: int, b: int, c: int)
    ensures a * (b * c) == a * b * c
  {
  }

  lemma {:induction false} Pow10Add(a: nat, b: nat)
    ensures Pow10(a + b) == Pow10(a) * Pow10(b)
    decreases a
  {
    if a > 0 {
      Pow10Add(a - 1, b);
    }
  }

  /** A mantissa with an optional exponent: `1.5`, `.5`, `5.`, `1e3`, `2.5E-1`. */
  function Unsigned(b: string): (r: Option<Decimal>)
    ensures r.Some? ==> exists i :: 0 <= i < |b| && IsDigit(b[i])
    ensures r.Some? ==> r.value.units >= 0
    ensures AllDigits(b) && b != [] ==> r == Some(Decimal(DigitsValue(b), 0))
  {
    match ExponentMark(b)
    case None => Mantissa(b)
    case Some(k) =>
      match Mantissa(b[..k])
      case None => None
      case Some(m) =>
        match Exponent(b[k + 1..])
        case None => None
        case Some(e) =>
          assert exists i :: 0 <= i < k && IsDigit(b[..k][i]);
          Some(Shift(m, e))
  }

  /** The number a string denotes to `is_numeric`, if any: optional white
      space, an optional sign, digits with an optional decimal point and an
      optional exponent, optional white space. */
  function ParseNumber(s: string): Option<Decimal> {
    var core := TrimEnd(TrimStart(s));
    if core != [] && (core[0] == '+' || core[0] == '-') then
      match Unsigned(core[1..])
      case None => None
      case Some(d) => Some(if core[0] == '-' then Decimal(-d.units, d.scale) else d)
    else
      Unsigned(core)
  }

  predicate IsNumeric(v: Value) {
    v.Number? || (v.Text? && ParseNumber(v.s).Some?)
  }

  function DecimalOf(v: Value): Decimal
    requires IsNumeric(v)
  {
    if v.Number? then v.n else ParseNumber(v.s).value
  }

  predicate AtLeast(d: Decimal, bound: int) {
    d.units >= bound * Pow10(d.scale)
  }

  /** `n` without its last `k` decimal digits. */
  function DropDigits(n: int, k: nat): int
    decreases k
  {
    if k == 0 then n else DropDigits(n / 10, k - 1)
  }

  /** The amount in whole cents; digits beyond the second decimal are dropped. */
  function ToCents(d: Decimal): Cents {
    if d.scale <= 2 then d.units * Pow10(2 - d.scale) else DropDigits(d.units, d.scale - 2)
  }

  // ---------------------------------------------------------------------------
  // Dates in the format `Y-m-d H:i`

  const MINUTE := 60
  const HOUR := 60 * MINUTE
  const DAY := 24 * HOUR
  const WEEK := 7 * DAY

  predicate IsLeapYear(y: int) {
    y % 4 == 0 && (y % 100 != 0 || y % 400 == 0)
  }

  function DaysInMonth(y: int, m: int): (n: int)
    requires 1 <= m <= 12
    ensures 28 <= n <= 31
  {
    if m == 2 then (if IsLeapYear(y) then 29 else 28)
    else if m == 4 || m == 6 || m == 9 || m == 11 then 30
    else 31
  }

  /** Days from 0000-03-01 to 1 March of year `y + 1`: years are counted
      from March, so that 29 February is the last day of its year. */
  function DaysBeforeYear(y: int): int {
    365 * y + y / 4 - y / 100 + y / 400
  }

  /** Days from 1 March to the first of month `m` in a year counted from March. */
  function DaysBeforeMonth(m: int): int
    requires 1 <= m <= 12
  {
    var shifted := if m > 2 then m - 3 else m + 9;
    (153 * shifted + 2) / 5
  }

  /** Days from 1970-01-01 to the given date of the proleptic Gregorian calendar. */
  function DaysFromCivil(y: int, m: int, d: int): int
    requires 1 <= m <= 12
  {
    DaysBeforeYear(if m <= 2 then y - 1 else y) + DaysBeforeMonth(m) + d - 1 - 719468
  }

  datatype Stamp = Stamp(year: int, month: int, day: int, hour: int, minute: int)

  predicate ValidStamp(st: Stamp) {
    && 1 <= st.month <= 12
    && 1 <= st.day <= DaysInMonth(st.year, st.month)
    && 0 <= st.hour < 24 && 0 <= st.minute < 60
  }

  function EpochSeconds(st: Stamp): Time
    requires ValidStamp(st)
  {
    DaysFromCivil(st.year, st.month, st.day) * DAY + st.hour * HOUR + st.minute * MINUTE
  }

  /** Sixteen characters `dddd-dd-dd dd:dd`. */
  predicate Shaped(s: string) {
    && |s| == 16
    && s[4] == '-' && s[7] == '-' && s[10] == ' ' && s[13] == ':'
    && AllDigits(s[0..4]) && AllDigits(s[5..7]) && AllDigits(s[8..10])
    && AllDigits(s[11..13]) && AllDigits(s[14..16])
  }

  function Fields(s: string): Stamp
    requires Shaped(s)
  {
    Stamp(DigitsValue(s[0..4]), DigitsValue(s[5..7]), DigitsValue(s[8..10]),
          DigitsValue(s[11..13]), DigitsValue(s[14..16]))
  }

  /** What `date_format:Y-m-d H:i` accepts (the string parses and formats
      back to itself), and the instant it names. */
  function StrictParse(s: string): (r: Option<Time>)
    ensures r.Some? <==> Shaped(s) && ValidStamp(Fields(s))
  {
    if Shaped(s) && ValidStamp(Fields(s)) then Some(EpochSeconds(Fields(s))) else None
  }

  /** `n` in exactly `width` digits, zero-padded. */
  function Pad(n: nat, width: nat): (s: string)
    ensures |s| == width && AllDigits(s)
  {
    if width == 0 then "" else Pad(n / 10, width - 1) + [DigitChar(n % 10)]
  }

  /** How `Y-m-d H:i` prints a stamp. */
  function DateText(st: Stamp): string
    requires 0 <= st.year && 0 <= st.month && 0 <= st.day && 0 <= st.hour && 0 <= st.minute
  {
    Pad(st.year, 4) + "-" + Pad(st.month, 2) + "-" + Pad(st.day, 2) + " " + Pad(st.hour, 2) + ":" + Pad(st.minute, 2)
  }

  lemma {:induction false} PadValue(n: nat, width: nat)
    requires n < Pow10(width)
    ensures DigitsValue(Pad(n, width)) == n
    decreases width
  {
    if width > 0 {
      PadValue(n / 10, width - 1);
      var s := Pad(n, width);
      assert s[..|s| - 1] == Pad(n / 10, width - 1);
    }
  }

  /** Parsing reads back exactly the fields that were printed. */
  lemma ParseDateText(st: Stamp)
    requires ValidStamp(st) && 0 <= st.year <= 9999
    ensures StrictParse(DateText(st)) == Some(EpochSeconds(st))
  {
    var s := DateText(st);
    assert s[0..4] == Pad(st.year, 4);
    assert s[5..7] == Pad(st.month, 2);
    assert s[8..10] == Pad(st.day, 2);
    assert s[11..13] == Pad(st.hour, 2);
    assert s[14..16] == Pad(st.minute, 2);
    PadValue(st.year, 4);
    PadValue(st.month, 2);
    PadValue(st.day, 2);
    PadValue(st.hour, 2);
    PadValue(st.minute, 2);
    assert Fields(s) == st;
  }

  /** The day after a date, on the calendar. */
  function NextDate(y: int, m: int, d: int): (int, int, int)
    requires 1 <= m <= 12 && 1 <= d <= DaysInMonth(y, m)
  {
    if d < DaysInMonth(y, m) then (y, m, d + 1)
    else if m < 12 then (y, m + 1, 1)
    else (y + 1, 1, 1)
  }

  lemma LeapDays(y: int)
    ensures y / 4 - (y - 1) / 4 == (if y % 4 == 0 then 1 else 0)
    ensures y / 100 - (y - 1) / 100 == (if y % 100 == 0 then 1 else 0)
    ensures y / 400 - (y - 1) / 400 == (if y % 400 == 0 then 1 else 0)
  {
  }

  /** The day count has no gaps and no overlaps: the next calendar day is
      always exactly one day later, across month and year ends and 29 February. */
  lemma CalendarIsContiguous(y: int, m: int, d: int)
    requires 1 <= m <= 12 && 1 <= d <= DaysInMonth(y, m)
    ensures var (y2, m2, d2) := NextDate(y, m, d);
            1 <= m2 <= 12 && DaysFromCivil(y2, m2, d2) == DaysFromCivil(y, m, d) + 1
  {
    if d == DaysInMonth(y, m) {
      if m == 2 {
        FebruaryEndsTheYear(y);
      } else if m == 12 {
        assert DaysBeforeMonth(12) == 275 && DaysBeforeMonth(1) == 306;
      } else {
        MonthLength(y, m);
      }
    }
  }

  /** 1 March follows the last day of February, 28 or 29 February alike. */
  lemma FebruaryEndsTheYear(y: int)
    ensures DaysFromCivil(y, 3, 1) == DaysFromCivil(y, 2, DaysInMonth(y, 2)) + 1
  {
    LeapDays(y);
    assert DaysBeforeYear(y) == DaysBeforeYear(y - 1) + DaysInMonth(y, 2) + 337;
    assert DaysBeforeMonth(2) == 337 && DaysBeforeMonth(3) == 0;
  }

  /** Outside February, consecutive months start as many days apart as the
      first one is long. */
  lemma MonthLength(y: int, m: int)
    requires 1 <= m <= 11 && m != 2
    ensures DaysBeforeMonth(m + 1) == DaysBeforeMonth(m) + DaysInMonth(y, m)
  {
    if m == 1 {
      assert DaysBeforeMonth(1) == 306 && DaysBeforeMonth(2) == 337;
    } else if m == 3 {
      assert DaysBeforeMonth(3) == 0 && DaysBeforeMonth(4) == 31;
    } else if m == 4 {
      assert DaysBeforeMonth(4) == 31 && DaysBeforeMonth(5) == 61;
    } else if m == 5 {
      assert DaysBeforeMonth(5) == 61 && DaysBeforeMonth(6) == 92;
    } else if m == 6 {
      assert DaysBeforeMonth(6) == 92 && DaysBeforeMonth(7) == 122;
    } else if m == 7 {
      assert DaysBeforeMonth(7) == 122 && DaysBeforeMonth(8) == 153;
    } else if m == 8 {
      assert DaysBeforeMonth(8) == 153 && DaysBeforeMonth(9) == 184;
    } else if m == 9 {
      assert DaysBeforeMonth(9) == 184 && DaysBeforeMonth(10) == 214;
    } else if m == 10 {
      assert DaysBeforeMonth(10) == 214 && DaysBeforeMonth(11) == 245;
    } else {
      assert DaysBeforeMonth(11) == 245 && DaysBeforeMonth(12) == 275;
    }
  }

  // ---------------------------------------------------------------------------
  // Rules

  /** What the validator knows besides the payload: the current instant, the
      email-address check behind `email`, and how PHP reads a value as a date
      when it is not in the `Y-m-d H:i` format (`DateTime::createFromFormat`
      with overflowing fields, then the `DateTime` constructor). */
  datatype Context = Context(now: Time, isEmail: string -> bool, looseDate: Value -> Option<Time>)

  /** The rules this request uses, with their parameters. `DateFormat` is
      `date_format:Y-m-d H:i`, `After` is `after:now`, `Before` is
      `before:7 days`. */
  datatype Rule =
    | Required
    | RequiredIf(other: string, values: seq<string>)
    | IsString
    | In(options: seq<string>)
    | IsArray
    | Email
    | Numeric
    | Min(bound: int)
    | Nullable
    | DateFormat
    | After
    | Before

  /** The rule's name, as it appears in a message key. */
  function RuleName(r: Rule): string {
    match r
    case Required => "required"
    case RequiredIf(_, _) => "required_if"
    case IsString => "string"
    case In(_) => "in"
    case IsArray => "array"
    case Email => "email"
    case Numeric => "numeric"
    case Min(_) => "min"
    case Nullable => "nullable"
    case DateFormat => "date_format"
    case After => "after"
    case Before => "before"
  }

  predicate Implicit(r: Rule) {
    r.Required? || r.RequiredIf?
  }

  /** A top-level field, or a field of a top-level object (`pix.type`). */
  datatype Attribute = Attribute(name: string, sub: Option<string>)

  function Key(a: Attribute): string {
    if a.sub.Some? then a.name + "." + a.sub.value else a.name
  }

  const METHOD := Attribute("method", None)
  const PIX := Attribute("pix", None)
  const PIX_TYPE := Attribute("pix", Some("type"))
  const PIX_KEY := Attribute("pix", Some("key"))
  const AMOUNT := Attribute("amount", None)
  const SCHEDULE := Attribute("schedule", None)

  const METHOD_RULES := [Required, IsString, In(["PIX", "pix"])]
  const PIX_RULES := [RequiredIf("method", ["PIX", "pix"]), IsArray]
  const PIX_TYPE_RULES := [Required, In([TYPE_EMAIL])]
  const PIX_KEY_RULES := [Required, Email]
  const AMOUNT_RULES := [Required, Numeric, Min(1)]
  const SCHEDULE_RULES := [Nullable, DateFormat, After, Before]

  /** `rules()`, in declaration order. */
  const RULES := [(METHOD, METHOD_RULES), (PIX, PIX_RULES), (PIX_TYPE, PIX_TYPE_RULES),
                  (PIX_KEY, PIX_KEY_RULES), (AMOUNT, AMOUNT_RULES), (SCHEDULE, SCHEDULE_RULES)]

  /** The attribute's value, if it is there (a present null is `Some(Null)`). */
  function Get(p: Payload, a: Attribute): (r: Option<Value>)
    ensures a.sub.None? ==> r == (if a.name in p then Some(p[a.name]) else None)
  {
    if a.name !in p then None
    else match a.sub
      case None => Some(p[a.name])
      case Some(k) =>
        match p[a.name]
        case Object(fields) => if k in fields then Some(fields[k]) else None
        case _ => None
  }

  /** `required`: not null, not blank, not an empty array. */
  predicate Filled(v: Value) {
    match v
    case Null => false
    case Text(s) => !Blank(s)
    case List(items) => |items| >= 1
    case Object(fields) => |fields| >= 1
    case _ => true
  }

  /** The instant `after`/`before` compare: the strict reading when the value
      is in the `Y-m-d H:i` format, PHP's looser reading otherwise; values that
      are neither strings nor numbers are not dates at all. */
  function DateOf(v: Value, ctx: Context): Option<Time> {
    if v.Text? && StrictParse(v.s).Some? then StrictParse(v.s)
    else if v.Text? || IsNumeric(v) then ctx.looseDate(v)
    else None
  }

  /** Whether rule `r` holds for value `v` (a missing attribute reads as null).
      `in` compares the string form of the value; no number, boolean or null
      prints as one of this request's words, so only a string can match.
      `min` compares numbers by value, arrays by their size and other strings
      by their length, as for an attribute that is also `numeric`. */
  predicate Holds(r: Rule, v: Value, p: Payload, ctx: Context) {
    match r
    case Required => Filled(v)
    case RequiredIf(other, values) =>
      var o := Get(p, Attribute(other, None));
      if o.Some? && o.value.Text? && o.value.s in values then Filled(v) else true
    case IsString => v.Text?
    case In(options) => v.Text? && v.s in options
    case IsArray => v.List? || v.Object?
    case Email => v.Text? && ctx.isEmail(v.s)
    case Numeric => IsNumeric(v)
    case Min(bound) =>
      if IsNumeric(v) then AtLeast(DecimalOf(v), bound)
      else (match v
        case List(items) => |items| >= bound
        case Object(fields) => |fields| >= bound
        case Text(s) => |s| >= bound
        case Bool(b) => (if b then 1 else 0) >= bound
        case _ => 0 >= bound)
    case Nullable => true
    case DateFormat => v.Text? && StrictParse(v.s).Some?
    case After => var t := DateOf(v, ctx); t.Some? && t.value > ctx.now
    case Before => var t := DateOf(v, ctx); t.Some? && t.value < ctx.now + WEEK
  }

  /** Whether the validator looks at rule `r` of this attribute at all. */
  predicate Checked(r: Rule, v: Option<Value>, rules: seq<Rule>) {
    && (if v.Some? && v.value.Text? && Blank(v.value.s) then Implicit(r) else v.Some? || Implicit(r))
    && (Implicit(r) || Nullable !in rules || v != Some(Null))
  }

  datatype Violation = Violation(attribute: Attribute, rule: Rule)

  /** Rule `r` of attribute `a` is looked at and does not hold. */
  predicate Broken(p: Payload, ctx: Context, a: Attribute, rules: seq<Rule>, r: Rule) {
    var v := Get(p, a);
    Checked(r, v, rules) && !Holds(r, if v.Some? then v.value else Null, p, ctx)
  }

  /** The violations of one attribute's rules, from rule `rest[0]` on. */
  function Check(p: Payload, ctx: Context, a: Attribute, rules: seq<Rule>, rest: seq<Rule>): (vs: seq<Violation>)
    ensures forall i :: 0 <= i < |vs| ==> vs[i].attribute == a && vs[i].rule in rest
    decreases |rest|
  {
    if rest == [] then []
    else
      var r := rest[0];
      var broken := Broken(p, ctx, a, rules, r);
      if broken && Implicit(r) then [Violation(a, r)]
      else (if broken then [Violation(a, r)] else []) + Check(p, ctx, a, rules, rest[1..])
  }

  /** An attribute has no violation exactly when none of its rules is broken. */
  lemma {:induction false} CheckSpec(p: Payload, ctx: Context, a: Attribute, rules: seq<Rule>, rest: seq<Rule>)
    ensures Check(p, ctx, a, rules, rest) == [] <==> forall r :: r in rest ==> !Broken(p, ctx, a, rules, r)
    decreases |rest|
  {
    if rest != [] {
      CheckSpec(p, ctx, a, rules, rest[1..]);
      if !Broken(p, ctx, a, rules, rest[0]) {
        forall r | r in rest ensures r == rest[0] || r in rest[1..] {
          var i :| 0 <= i < |rest| && rest[i] == r;
          if i > 0 {
            assert rest[1..][i - 1] == r;
          }
        }
      }
    }
  }

  /** A broken rule is reported when no implicit rule comes before it. */
  lemma {:induction false} BrokenIsReported(p: Payload, ctx: Context, a: Attribute, rules: seq<Rule>, rest: seq<Rule>, k: nat)
    requires k < |rest| && Broken(p, ctx, a, rules, rest[k])
    requires forall j :: 0 <= j < k ==> !Implicit(rest[j])
    ensures Violation(a, rest[k]) in Check(p, ctx, a, rules, rest)
    decreases k
  {
    if k > 0 {
      assert rest[1..][k - 1] == rest[k];
      BrokenIsReported(p, ctx, a, rules, rest[1..], k - 1);
    }
  }

  /** Every reported violation names the attribute and one of its rules. */
  lemma InCheck(p: Payload, ctx: Context, a: Attribute, rules: seq<Rule>, v: Violation)
    requires v in Check(p, ctx, a, rules, rules)
    ensures v.attribute == a && v.rule in rules
  {
    var vs := Check(p, ctx, a, rules, rules);
    var i :| 0 <= i < |vs| && vs[i] == v;
  }

  function AttributeViolations(p: Payload, ctx: Context, a: Attribute, rules: seq<Rule>): seq<Violation> {
    Check(p, ctx, a, rules, rules)
  }

  /** Every violation of the request, attribute by attribute in declaration order. */
  function Violations(p: Payload, ctx: Context): seq<Violation> {
    AttributeViolations(p, ctx, METHOD, METHOD_RULES)
      + AttributeViolations(p, ctx, PIX, PIX_RULES)
      + AttributeViolations(p, ctx, PIX_TYPE, PIX_TYPE_RULES)
      + AttributeViolations(p, ctx, PIX_KEY, PIX_KEY_RULES)
      + AttributeViolations(p, ctx, AMOUNT, AMOUNT_RULES)
      + AttributeViolations(p, ctx, SCHEDULE, SCHEDULE_RULES)
  }

  predicate Valid(p: Payload, ctx: Context) {
    Violations(p, ctx) == []
  }

  // ---------------------------------------------------------------------------
  // Messages

  const METHOD_REQUIRED_TEXT := "O método é obrigatório."
  const PIX_REQUIRED_TEXT := "A chave PIX é obrigatória."
  const SCHEDULE_AFTER_TEXT := "A data de agendamento deve ser no futuro."

  /** `messages()`. */
  const CUSTOM_MESSAGES: map<string, string> := map[
    "method.in" := "O método deve ser PIX.",
    "method.required" := METHOD_REQUIRED_TEXT,
    "pix.required" := PIX_REQUIRED_TEXT,
    "pix.type.in" := "Apenas chaves PIX do tipo email são aceitas no momento.",
    "pix.key.email" := "A chave PIX deve ser um email válido.",
    "amount.required" := "O valor é obrigatório.",
    "amount.numeric" := "O valor deve ser numérico.",
    "amount.min" := "O valor mínimo é 1.",
    "schedule.date_format" := "O agendamento deve estar no formato YYYY-MM-DD HH:MM.",
    "schedule.after" := SCHEDULE_AFTER_TEXT,
    "schedule.before" := "A data de agendamento não pode ser maior que 7 dias."
  ]

  /** A registered text, or the framework's translation key for the rule. */
  datatype Message = Custom(text: string) | FrameworkDefault(key: string)

  function MessageOf(v: Violation): (m: Message)
    ensures m.Custom? <==> Key(v.attribute) + "." + RuleName(v.rule) in CUSTOM_MESSAGES
  {
    var k := Key(v.attribute) + "." + RuleName(v.rule);
    if k in CUSTOM_MESSAGES then Custom(CUSTOM_MESSAGES[k]) else FrameworkDefault("validation." + RuleName(v.rule))
  }

  // ---------------------------------------------------------------------------
  // What each attribute accepts

  lemma MethodAccepted(p: Payload, ctx: Context)
    ensures AttributeViolations(p, ctx, METHOD, METHOD_RULES) == [] <==>
              Get(p, METHOD) == Some(Text("PIX")) || Get(p, METHOD) == Some(Text("pix"))
  {
    CheckSpec(p, ctx, METHOD, METHOD_RULES, METHOD_RULES);
    assert forall r :: r in METHOD_RULES <==> r == Required || r == IsString || r == In(["PIX", "pix"]);
    assert !IsTrimmed("PIX"[0]) && !IsTrimmed("pix"[0]);
  }

  /** A missing method is reported once, with its custom message. */
  lemma MissingMethod(p: Payload, ctx: Context)
    requires "method" !in p
    ensures AttributeViolations(p, ctx, METHOD, METHOD_RULES) == [Violation(METHOD, Required)]
    ensures MessageOf(Violation(METHOD, Required)) == Custom(METHOD_REQUIRED_TEXT)
  {
    assert Broken(p, ctx, METHOD, METHOD_RULES, Required);
    assert Key(METHOD) + "." + RuleName(Required) == "method.required";
  }

  /** Whether `method` asks for PIX data. */
  predicate AsksForPix(p: Payload) {
    Get(p, METHOD) == Some(Text("PIX")) || Get(p, METHOD) == Some(Text("pix"))
  }

  lemma PixAccepted(p: Payload, ctx: Context)
    ensures AttributeViolations(p, ctx, PIX, PIX_RULES) == [] <==>
              if AsksForPix(p) then Get(p, PIX).Some? && Filled(Get(p, PIX).value) && (Get(p, PIX).value.List? || Get(p, PIX).value.Object?)
              else Get(p, PIX).None? || (Get(p, PIX).value.Text? && Blank(Get(p, PIX).value.s))
                   || Get(p, PIX).value.List? || Get(p, PIX).value.Object?
  {
    CheckSpec(p, ctx, PIX, PIX_RULES, PIX_RULES);
    assert forall r :: r in PIX_RULES <==> r == RequiredIf("method", ["PIX", "pix"]) || r == IsArray;
    assert Get(p, Attribute("method", None)) == Get(p, METHOD);
  }

  lemma PixTypeAccepted(p: Payload, ctx: Context)
    ensures AttributeViolations(p, ctx, PIX_TYPE, PIX_TYPE_RULES) == [] <==> Get(p, PIX_TYPE) == Some(Text(TYPE_EMAIL))
  {
    CheckSpec(p, ctx, PIX_TYPE, PIX_TYPE_RULES, PIX_TYPE_RULES);
    assert forall r :: r in PIX_TYPE_RULES <==> r == Required || r == In([TYPE_EMAIL]);
    if Get(p, PIX_TYPE) == Some(Text(TYPE_EMAIL)) {
      assert !IsTrimmed(TYPE_EMAIL[0]);
    }
  }

  lemma PixKeyAccepted(p: Payload, ctx: Context)
    ensures AttributeViolations(p, ctx, PIX_KEY, PIX_KEY_RULES) == [] <==>
              exists key :: Get(p, PIX_KEY) == Some(Text(key)) && !Blank(key) && ctx.isEmail(key)
  {
    CheckSpec(p, ctx, PIX_KEY, PIX_KEY_RULES, PIX_KEY_RULES);
    assert forall r :: r in PIX_KEY_RULES <==> r == Required || r == Email;
    var v := Get(p, PIX_KEY);
    if v.Some? && v.value.Text? {
      assert Get(p, PIX_KEY) == Some(Text(v.value.s));
    }
  }

  /** A numeric string always holds a digit, so it is never blank. */
  lemma NumericIsNotBlank(s: string)
    requires ParseNumber(s).Some?
    ensures !Blank(s)
  {
    var t := TrimStart(s);
    var core := TrimEnd(t);
    var start := |s| - |t|;
    var body := if core != [] && (core[0] == '+' || core[0] == '-') then core[1..] else core;
    var skip := if core != [] && (core[0] == '+' || core[0] == '-') then 1 else 0;
    assert Unsigned(body).Some?;
    var i :| 0 <= i < |body| && IsDigit(body[i]);
    assert body[i] == core[skip + i] == t[skip + i] == s[start + skip + i];
    assert !IsTrimmed(s[start + skip + i]);
  }

  lemma AmountAccepted(p: Payload, ctx: Context)
    ensures AttributeViolations(p, ctx, AMOUNT, AMOUNT_RULES) == [] <==>
              Get(p, AMOUNT).Some? && IsNumeric(Get(p, AMOUNT).value) && AtLeast(DecimalOf(Get(p, AMOUNT).value), 1)
  {
    CheckSpec(p, ctx, AMOUNT, AMOUNT_RULES, AMOUNT_RULES);
    assert forall r :: r in AMOUNT_RULES <==> r == Required || r == Numeric || r == Min(1);
    var v := Get(p, AMOUNT);
    if v.None? || !Filled(v.value) {
      AmountMissing(p, ctx);
      if v.Some? && v.value.Text? && ParseNumber(v.value.s).Some? {
        NumericIsNotBlank(v.value.s);
      }
    } else if !IsNumeric(v.value) {
      AmountNotNumeric(p, ctx);
    } else {
      AmountNumeric(p, ctx);
    }
  }

  lemma AmountMissing(p: Payload, ctx: Context)
    requires var v := Get(p, AMOUNT); v.None? || !Filled(v.value)
    ensures Broken(p, ctx, AMOUNT, AMOUNT_RULES, Required)
  {
  }

  lemma AmountNotNumeric(p: Payload, ctx: Context)
    requires var v := Get(p, AMOUNT); v.Some? && Filled(v.value) && !IsNumeric(v.value)
    ensures Broken(p, ctx, AMOUNT, AMOUNT_RULES, Numeric)
  {
  }

  /** A numeric amount is judged by `min` alone. */
  lemma AmountNumeric(p: Payload, ctx: Context)
    requires var v := Get(p, AMOUNT); v.Some? && IsNumeric(v.value)
    ensures !Broken(p, ctx, AMOUNT, AMOUNT_RULES, Required)
    ensures !Broken(p, ctx, AMOUNT, AMOUNT_RULES, Numeric)
    ensures Broken(p, ctx, AMOUNT, AMOUNT_RULES, Min(1)) <==> !AtLeast(DecimalOf(Get(p, AMOUNT).value), 1)
  {
    var v := Get(p, AMOUNT);
    if v.value.Text? {
      NumericIsNotBlank(v.value.s);
    }
  }

  /** The schedule may be left out, null or blank; otherwise it must be a
      `Y-m-d H:i` date strictly after now and strictly before a week from now. */
  lemma ScheduleAccepted(p: Payload, ctx: Context)
    ensures AttributeViolations(p, ctx, SCHEDULE, SCHEDULE_RULES) == [] <==>
              || Get(p, SCHEDULE).None? || Get(p, SCHEDULE) == Some(Null)
              || (Get(p, SCHEDULE).value.Text? && Blank(Get(p, SCHEDULE).value.s))
              || (Get(p, SCHEDULE).value.Text? && StrictParse(Get(p, SCHEDULE).value.s).Some?
                  && ctx.now < StrictParse(Get(p, SCHEDULE).value.s).value < ctx.now + WEEK)
  {
    CheckSpec(p, ctx, SCHEDULE, SCHEDULE_RULES, SCHEDULE_RULES);
    assert forall r :: r in SCHEDULE_RULES <==> r == Nullable || r == DateFormat || r == After || r == Before;
    var v := Get(p, SCHEDULE);
    if v.None? || v == Some(Null) || (v.value.Text? && Blank(v.value.s)) {
      UndatedSchedule(p, ctx);
    } else if v.value.Text? && StrictParse(v.value.s).Some? {
      DatedSchedule(p, ctx, v.value.s);
    } else {
      MalformedSchedule(p, ctx);
    }
  }

  /** A schedule left out, null or blank breaks none of its rules but `nullable`,
      which it keeps too. */
  lemma UndatedSchedule(p: Payload, ctx: Context)
    requires var v := Get(p, SCHEDULE); v.None? || v == Some(Null) || (v.value.Text? && Blank(v.value.s))
    ensures !Broken(p, ctx, SCHEDULE, SCHEDULE_RULES, Nullable)
    ensures !Broken(p, ctx, SCHEDULE, SCHEDULE_RULES, DateFormat)
    ensures !Broken(p, ctx, SCHEDULE, SCHEDULE_RULES, After)
    ensures !Broken(p, ctx, SCHEDULE, SCHEDULE_RULES, Before)
  {
  }

  /** Any other schedule that is not a `Y-m-d H:i` date breaks `date_format`. */
  lemma MalformedSchedule(p: Payload, ctx: Context)
    requires var v := Get(p, SCHEDULE);
             && v.Some? && v != Some(Null) && !(v.value.Text? && Blank(v.value.s))
             && !(v.value.Text? && StrictParse(v.value.s).Some?)
    ensures Broken(p, ctx, SCHEDULE, SCHEDULE_RULES, DateFormat)
  {
  }

  /** A schedule in the `Y-m-d H:i` format is judged by `after` and `before` alone. */
  lemma DatedSchedule(p: Payload, ctx: Context, s: string)
    requires Get(p, SCHEDULE) == Some(Text(s)) && StrictParse(s).Some?
    ensures !Blank(s)
    ensures !Broken(p, ctx, SCHEDULE, SCHEDULE_RULES, Nullable)
    ensures !Broken(p, ctx, SCHEDULE, SCHEDULE_RULES, DateFormat)
    ensures Broken(p, ctx, SCHEDULE, SCHEDULE_RULES, After) <==> StrictParse(s).value <= ctx.now
    ensures Broken(p, ctx, SCHEDULE, SCHEDULE_RULES, Before) <==> StrictParse(s).value >= ctx.now + WEEK
  {
    assert !IsTrimmed(s[0]);
    assert DateOf(Text(s), ctx) == StrictParse(s);
  }

  /** A request is valid exactly when each attribute is acceptable. */
  lemma ValidIff(p: Payload, ctx: Context)
    ensures Valid(p, ctx) <==>
              && AttributeViolations(p, ctx, METHOD, METHOD_RULES) == []
              && AttributeViolations(p, ctx, PIX, PIX_RULES) == []
              && AttributeViolations(p, ctx, PIX_TYPE, PIX_TYPE_RULES) == []
              && AttributeViolations(p, ctx, PIX_KEY, PIX_KEY_RULES) == []
              && AttributeViolations(p, ctx, AMOUNT, AMOUNT_RULES) == []
              && AttributeViolations(p, ctx, SCHEDULE, SCHEDULE_RULES) == []
  {
  }

  /** A date in the past is reported with the "must be in the future" text. */
  lemma PastScheduleMessage(p: Payload, ctx: Context, s: string)
    requires Get(p, SCHEDULE) == Some(Text(s)) && StrictParse(s).Some? && StrictParse(s).value <= ctx.now
    ensures Violation(SCHEDULE, After) in Violations(p, ctx)
    ensures MessageOf(Violation(SCHEDULE, After)) == Custom(SCHEDULE_AFTER_TEXT)
  {
    DatedSchedule(p, ctx, s);
    assert SCHEDULE_RULES[2] == After;
    BrokenIsReported(p, ctx, SCHEDULE, SCHEDULE_RULES, SCHEDULE_RULES, 2);
    ScheduleAfterMessage();
  }

  lemma ScheduleAfterMessage()
    ensures MessageOf(Violation(SCHEDULE, After)) == Custom(SCHEDULE_AFTER_TEXT)
  {
    assert Key(SCHEDULE) + "." + RuleName(After) == "schedule.after";
  }

  /** The registered "pix.required" text is never shown: `pix` is governed by
      `required_if`, whose message key is "pix.required_if". */
  lemma PixRequiredTextIsNeverUsed(p: Payload, ctx: Context)
    ensures forall v :: v in Violations(p, ctx) ==> MessageOf(v) != Custom(PIX_REQUIRED_TEXT)
  {
    forall v | v in Violations(p, ctx)
      ensures MessageOf(v) != Custom(PIX_REQUIRED_TEXT)
    {
      ViolationIsDeclared(p, ctx, v);
      NoPixRequiredKey(v);
    }
  }

  /** A PIX request without a PIX object is told so with the framework's
      default `required_if` text. */
  lemma MissingPixMessage(p: Payload, ctx: Context)
    requires AsksForPix(p) && "pix" !in p
    ensures Violation(PIX, RequiredIf("method", ["PIX", "pix"])) in Violations(p, ctx)
    ensures MessageOf(Violation(PIX, RequiredIf("method", ["PIX", "pix"]))) == FrameworkDefault("validation.required_if")
  {
    var v := Violation(PIX, RequiredIf("method", ["PIX", "pix"]));
    assert Get(p, Attribute("method", None)) == Get(p, METHOD);
    assert Broken(p, ctx, PIX, PIX_RULES, PIX_RULES[0]);
    BrokenIsReported(p, ctx, PIX, PIX_RULES, PIX_RULES, 0);
    assert v in AttributeViolations(p, ctx, METHOD, METHOD_RULES) + AttributeViolations(p, ctx, PIX, PIX_RULES);
    RequiredIfMessage();
  }

  lemma RequiredIfMessage()
    ensures MessageOf(Violation(PIX, RequiredIf("method", ["PIX", "pix"]))) == FrameworkDefault("validation.required_if")
  {
    assert Key(PIX) + "." + RuleName(RequiredIf("method", ["PIX", "pix"])) == "pix.required_if";
  }

  /** Every violation is of a declared attribute, and one of `pix`'s is of one of its own rules. */
  lemma ViolationIsDeclared(p: Payload, ctx: Context, v: Violation)
    requires v in Violations(p, ctx)
    ensures v.attribute in {METHOD, PIX, PIX_TYPE, PIX_KEY, AMOUNT, SCHEDULE}
    ensures v.attribute == PIX ==> v.rule in PIX_RULES
  {
    if v in AttributeViolations(p, ctx, METHOD, METHOD_RULES) {
      InCheck(p, ctx, METHOD, METHOD_RULES, v);
    } else if v in AttributeViolations(p, ctx, PIX, PIX_RULES) {
      InCheck(p, ctx, PIX, PIX_RULES, v);
    } else if v in AttributeViolations(p, ctx, PIX_TYPE, PIX_TYPE_RULES) {
      InCheck(p, ctx, PIX_TYPE, PIX_TYPE_RULES, v);
    } else if v in AttributeViolations(p, ctx, PIX_KEY, PIX_KEY_RULES) {
      InCheck(p, ctx, PIX_KEY, PIX_KEY_RULES, v);
    } else if v in AttributeViolations(p, ctx, AMOUNT, AMOUNT_RULES) {
      InCheck(p, ctx, AMOUNT, AMOUNT_RULES, v);
    } else {
      InCheck(p, ctx, SCHEDULE, SCHEDULE_RULES, v);
    }
  }

  /** Only the violation (`pix`, `required`) could show the "pix.required"
      text, and this request has no such rule. */
  lemma NoPixRequiredKey(v: Violation)
    requires v.attribute in {METHOD, PIX, PIX_TYPE, PIX_KEY, AMOUNT, SCHEDULE}
    requires v.attribute == PIX ==> v.rule in PIX_RULES
    ensures MessageOf(v) != Custom(PIX_REQUIRED_TEXT)
  {
    var k := Key(v.attribute) + "." + RuleName(v.rule);
    if v.attribute == METHOD {
      assert k[0] == 'm';
    } else if v.attribute == AMOUNT {
      assert k[0] == 'a';
    } else if v.attribute == SCHEDULE {
      assert k[0] == 's';
    } else if v.attribute == PIX_TYPE {
      assert k[4] == 't';
    } else if v.attribute == PIX_KEY {
      assert k[4] == 'k';
    } else {
      assert k[4..] == RuleName(v.rule);
      assert RuleName(v.rule) != "required";
    }
    assert k != "pix.required";
  }

  // ---------------------------------------------------------------------------
  // The validated data handed to the service

  /** What the `schedule` field holds once validated: nothing (left out or
      null), a `Y-m-d H:i` time, or a blank string, which passes validation
      but is not a time the `scheduled_for` column can hold. */
  datatype Schedule = Unscheduled | At(time: Time) | BlankText(text: string)

  /** The validated fields in the service's terms. */
  datatype Validated = Validated(payoutMethod: string, amount: Decimal, pixType: string, pixKey: string, schedule: Schedule)

  function Normalize(p: Payload, ctx: Context): (r: Validated)
    requires Valid(p, ctx)
    ensures r.payoutMethod == "PIX" || r.payoutMethod == "pix"
    ensures r.pixType == TYPE_EMAIL && ctx.isEmail(r.pixKey)
    ensures AtLeast(r.amount, 1)
    ensures r.schedule.At? ==> ctx.now < r.schedule.time < ctx.now + WEEK
    ensures r.schedule.Unscheduled? <==> Get(p, SCHEDULE).None? || Get(p, SCHEDULE) == Some(Null)
    ensures r.schedule.BlankText? <==> Get(p, SCHEDULE).Some? && Get(p, SCHEDULE).value.Text? && Blank(Get(p, SCHEDULE).value.s)
    ensures r.schedule.BlankText? ==> Get(p, SCHEDULE) == Some(Text(r.schedule.text))
  {
    ValidIff(p, ctx);
    MethodAccepted(p, ctx);
    PixTypeAccepted(p, ctx);
    PixKeyAccepted(p, ctx);
    AmountAccepted(p, ctx);
    ScheduleAccepted(p, ctx);
    var schedule := Get(p, SCHEDULE);
    var key :| Get(p, PIX_KEY) == Some(Text(key)) && !Blank(key) && ctx.isEmail(key);
    Validated(
      Get(p, METHOD).value.s,
      DecimalOf(Get(p, AMOUNT).value),
      TYPE_EMAIL,
      key,
      if schedule.None? || !schedule.value.Text? then Unscheduled
      else if Blank(schedule.value.s) then BlankText(schedule.value.s)
      else At(StrictParse(schedule.value.s).value))
  }

  /** An amount of at least 1 is at least 100 cents. */
  lemma CentsOfAtLeastOne(d: Decimal)
    requires AtLeast(d, 1)
    ensures ToCents(d) >= 100
  {
    if d.scale <= 2 {
      assert Pow10(1) == 10 && Pow10(2) == 100;
    } else {
      DropDigitsAtLeast(d.units, d.scale - 2);
    }
  }

  lemma {:induction false} DropDigitsAtLeast(n: int, k: nat)
    requires n >= Pow10(k + 2)
    ensures DropDigits(n, k) >= 100
    decreases k
  {
    if k == 0 {
      assert Pow10(2) == 100;
    } else {
      assert Pow10(k + 2) == 10 * Pow10(k + 1);
      DropDigitsAtLeast(n / 10, k - 1);
    }
  }

  /** The plain digits of a number read back as that number. */
  lemma ParsePlainDigits(n: nat)
    ensures ParseNumber(NatToString(n)) == Some(Decimal(n, 0))
  {
    NatToStringRoundTrip(n);
    ParseDigits(NatToString(n));
  }

  /** A non-empty string of digits is numeric, with the value it spells. */
  lemma ParseDigits(s: string)
    requires AllDigits(s) && s != []
    ensures ParseNumber(s) == Some(Decimal(DigitsValue(s), 0))
  {
    assert !IsNumericSpace(s[0]);
    assert TrimStart(s) == s;
    assert !IsNumericSpace(s[|s| - 1]);
    assert TrimEnd(s) == s;
    assert s[0] != '+' && s[0] != '-';
  }

  /** Digits, an exponent mark and digits: `is_numeric` reads them as the
      mantissa times ten to the exponent. */
  lemma ParseScientific(m: string, mark: char, x: string)
    requires AllDigits(m) && m != [] && AllDigits(x) && x != []
    requires mark == 'e' || mark == 'E'
    ensures ParseNumber(m + [mark] + x) == Some(Decimal(DigitsValue(m) * Pow10(DigitsValue(x)), 0))
  {
    var s := m + [mark] + x;
    assert s[0] == m[0] && s[|s| - 1] == x[|x| - 1];
    assert !IsNumericSpace(s[0]);
    assert TrimStart(s) == s;
    assert !IsNumericSpace(s[|s| - 1]);
    assert TrimEnd(s) == s;
    assert s[0] != '+' && s[0] != '-';
    UnsignedScientific(m, mark, x);
  }

  lemma UnsignedScientific(m: string, mark: char, x: string)
    requires AllDigits(m) && m != [] && AllDigits(x) && x != []
    requires mark == 'e' || mark == 'E'
    ensures Unsigned(m + [mark] + x) == Some(Decimal(DigitsValue(m) * Pow10(DigitsValue(x)), 0))
  {
    var s := m + [mark] + x;
    var k := |m|;
    assert s == m + ([mark] + x);
    ExponentMarkAfterDigits(m, [mark] + x);
    assert s[..k] == m && s[k + 1..] == x;
    var v, e := DigitsValue(m), DigitsValue(x);
    assert Mantissa(s[..k]) == Some(Decimal(v, 0));
    assert Exponent(s[k + 1..]) == Some(e);
    assert Unsigned(s) == Some(Shift(Decimal(v, 0), e));
    ShiftWhole(v, e);
  }

  /** A whole number shifted by a non-negative exponent stays whole. */
  lemma ShiftWhole(v: int, e: nat)
    ensures Shift(Decimal(v, 0), e) == Decimal(v * Pow10(e), 0)
  {
    if e == 0 {
      assert Pow10(0) == 1;
    } else {
      assert e - 0 == e;
    }
  }

  /** An amount written with an exponent, such as "1e3", is numeric and
      judged by `min:1` alone; "1e3" is a thousand, 100000 cents. */
  lemma ExponentAmount(p: Payload, ctx: Context)
    requires Get(p, AMOUNT) == Some(Text("1e3"))
    ensures IsNumeric(Text("1e3"))
    ensures AttributeViolations(p, ctx, AMOUNT, AMOUNT_RULES) == []
    ensures ToCents(DecimalOf(Text("1e3"))) == 100000
  {
    var m, x := "1", "3";
    assert "1e3" == m + ['e'] + x;
    assert DigitsValue(m) == 1 && DigitsValue(x) == 3 by {
      assert m[..0] == [] && x[..0] == [];
    }
    ParseScientific(m, 'e', x);
    assert Pow10(3) == 1000 && Pow10(2) == 100;
    AmountAccepted(p, ctx);
  }

  lemma {:induction false} ExponentMarkAfterDigits(m: string, rest: string)
    requires AllDigits(m) && rest != [] && (rest[0] == 'e' || rest[0] == 'E')
    ensures ExponentMark(m + rest) == Some(|m|)
    decreases |m|
  {
    if m != [] {
      assert (m + rest)[1..] == m[1..] + rest;
      ExponentMarkAfterDigits(m[1..], rest);
    }
  }
}
