/** The values held in the cells of a table (src/value.rs): text, 64-bit
    floats, 64-bit integers and NULL, with their derived equality and
    ordering, their printed length and their classification from text.

    A float is kept as its IEEE 754 bit pattern. Its equality and ordering
    are computed from the bits; turning text into the nearest float and
    rendering a float as text are the standard library's and are passed in
    as functions. */
module Values {
  import opened Wrappers
  import opened Strings

  type Int64 = i: int | I64_MIN <= i <= I64_MAX

  /** An f64, as its bit pattern. */
  type F64 = bv64

  datatype Value = Text(text: string) | Float(bits: F64) | Integer(number: Int64) | Null

  // ---------------------------------------------------------------------
  // f64 comparison

  predicate IsNaN(f: F64)
  {
    (f >> 52) & 0x7ff == 0x7ff && f & 0xf_ffff_ffff_ffff != 0
  }

  /** Where a float that is not NaN sits on the number line: its magnitude
      bits, negated when the sign bit is set. On IEEE 754 doubles the order
      of the magnitude bits is the order of the magnitudes, so comparing
      ranks is comparing floats; both zeros have rank 0. */
  function FloatRank(f: F64): int
  {
    var m := (f & 0x7fff_ffff_ffff_ffff) as int;
    if f >> 63 == 1 then -m else m
  }

  /** f64::partial_cmp: no ordering when either side is NaN. */
  function FloatCmp(a: F64, b: F64): Option<Ordering>
  {
    if IsNaN(a) || IsNaN(b) then None else Some(CompareInt(FloatRank(a), FloatRank(b)))
  }

  /** f64 equality (==). */
  predicate FloatEq(a: F64, b: F64)
  {
    !IsNaN(a) && !IsNaN(b) && FloatRank(a) == FloatRank(b)
  }

  /** NaN is unequal to itself, and the two zeros are equal. */
  lemma FloatEqualityQuirks()
    ensures !FloatEq(0x7ff8_0000_0000_0000, 0x7ff8_0000_0000_0000)
    ensures FloatEq(0, 0x8000_0000_0000_0000)
  {
    assert IsNaN(0x7ff8_0000_0000_0000);
    assert FloatRank(0x8000_0000_0000_0000) == 0;
  }

  // ---------------------------------------------------------------------
  // String comparison

  /** Ord for String: byte-wise lexicographic order. */
  function CompareText(a: string, b: string): Ordering
  {
    if |a| == 0 then (if |b| == 0 then Equal else Less)
    else if |b| == 0 then Greater
    else if a[0] < b[0] then Less
    else if a[0] > b[0] then Greater
    else CompareText(a[1..], b[1..])
  }

  /** Text compares Equal exactly when it is the same text, and swapping the
      sides reverses the order. */
  lemma {:induction false} CompareTextProperties(a: string, b: string)
    ensures CompareText(a, b) == Equal <==> a == b
    ensures CompareText(b, a) == CompareText(a, b).Reverse()
  {
    if |a| > 0 && |b| > 0 && a[0] == b[0] {
      CompareTextProperties(a[1..], b[1..]);
      if a[1..] == b[1..] {
        assert a == [a[0]] + a[1..] && b == [b[0]] + b[1..];
      }
    }
  }

  // ---------------------------------------------------------------------
  // Derived PartialEq and PartialOrd

  /** The index of a value's variant, which the derived ordering compares
      first: Text, Float, Integer, NULL. */
  function Rank(v: Value): nat
  {
    match v
    case Text(_) => 0
    case Float(_) => 1
    case Integer(_) => 2
    case Null => 3
  }

  /** The derived PartialEq: the same variant with equal payloads. */
  predicate Eq(a: Value, b: Value)
  {
    match (a, b)
    case (Text(x), Text(y)) => x == y
    case (Float(x), Float(y)) => FloatEq(x, y)
    case (Integer(x), Integer(y)) => x == y
    case (Null, Null) => true
    case _ => false
  }

  /** The derived PartialOrd: variants in declaration order, then the
      payloads within a variant. */
  function PartialCmp(a: Value, b: Value): Option<Ordering>
  {
    if Rank(a) != Rank(b) then Some(CompareInt(Rank(a), Rank(b)))
    else
      match (a, b)
      case (Text(x), Text(y)) => Some(CompareText(x, y))
      case (Float(x), Float(y)) => FloatCmp(x, y)
      case (Integer(x), Integer(y)) => Some(CompareInt(x, y))
      case _ => Some(Equal)
  }

  function ReverseOpt(o: Option<Ordering>): Option<Ordering>
  {
    match o
    case None => None
    case Some(x) => Some(x.Reverse())
  }

  /** The derived ordering agrees with the derived equality, is
      antisymmetric, and fails only between two floats one of which is
      NaN. Variants are ordered Text < Float < Integer < NULL. */
  lemma PartialCmpProperties(a: Value, b: Value)
    ensures PartialCmp(a, b) == Some(Equal) <==> Eq(a, b)
    ensures PartialCmp(b, a) == ReverseOpt(PartialCmp(a, b))
    ensures PartialCmp(a, b).None? <==> a.Float? && b.Float? && (IsNaN(a.bits) || IsNaN(b.bits))
    ensures Rank(a) < Rank(b) ==> PartialCmp(a, b) == Some(Less)
  {
    if a.Text? && b.Text? {
      CompareTextProperties(a.text, b.text);
    }
  }

  // ---------------------------------------------------------------------
  // Display and len

  /** The Display form of a value. */
  function Display(v: Value, render: F64 -> string): string
  {
    match v
    case Float(f) => render(f)
    case Integer(i) => Decimal(i)
    case Text(t) => "\"" + t + "\""
    case Null => "NULL"
  }

  /** Value::len: the byte length of a text, of the rendering of a number,
      and 0 for NULL. */
  function Len(v: Value, render: F64 -> string): nat
  {
    match v
    case Text(t) => |t|
    case Float(f) => |render(f)|
    case Integer(i) => |Decimal(i)|
    case Null => 0
  }

  /** `len` measures the Display form, without the two quotes around text;
      NULL displays as four characters but has length 0. An integer
      displays as text that parses back to it. */
  lemma LenMeasuresDisplay(v: Value, render: F64 -> string)
    ensures v.Text? ==> |Display(v, render)| == Len(v, render) + 2
    ensures (v.Float? || v.Integer?) ==> |Display(v, render)| == Len(v, render)
    ensures v.Null? ==> Len(v, render) == 0 && Display(v, render) == "NULL"
    ensures v.Integer? ==> ParseI64(Display(v, render)) == Some(v.number)
  {
    if v.Integer? {
      DecimalParses(v.number);
    }
  }

  // ---------------------------------------------------------------------
  // Text to Value

  /** strip_quotes: one leading and one trailing double quote are removed
      when both are there. The lone string `"` has both, and slicing it
      from 1 to 0 panics. */
  function StripQuotes(s: string): (r: Result<string>)
    ensures r.Panic? <==> s == "\""
    ensures |s| >= 2 && s[0] == '"' && s[|s| - 1] == '"' ==> r == Ok(s[1..|s| - 1])
    ensures !(|s| >= 1 && s[0] == '"' && s[|s| - 1] == '"') ==> r == Ok(s)
  {
    if |s| >= 1 && s[0] == '"' && s[|s| - 1] == '"' then
      if |s| == 1 then Panic("slice index starts at 1 but ends at 0") else Ok(s[1..|s| - 1])
    else Ok(s)
  }

  /** Quoting a text and stripping the quotes gives the text back; in
      particular stripping undoes the Display of a Text value. */
  lemma StripQuotesOfDisplay(t: string, render: F64 -> string)
    ensures StripQuotes(Display(Text(t), render)) == Ok(t)
  {
    var q := "\"" + t + "\"";
    assert q[1..|q| - 1] == t;
  }

  /** Digits with at most one decimal point, and at least one digit. */
  predicate IsMantissa(m: string)
  {
    match Find(m, ".", 0)
    case None => |m| >= 1 && AllDigits(m)
    case Some(p) => |m| >= 2 && AllDigits(m[..p]) && AllDigits(m[p + 1..])
  }

  predicate IsExponent(x: string)
  {
    var d := if |x| > 0 && (x[0] == '+' || x[0] == '-') then x[1..] else x;
    |d| >= 1 && AllDigits(d)
  }

  predicate IsDecimalNumber(s: string)
  {
    match Find(s, "e", 0)
    case None => IsMantissa(s)
    case Some(e) => IsMantissa(s[..e]) && IsExponent(s[e + 1..])
  }

  /** The texts str::parse::<f64> accepts: an optional sign, then, ignoring
      case, `inf`, `infinity`, `nan`, or digits with at most one decimal
      point (and a digit on at least one side of it) followed by an
      optional exponent. */
  predicate IsFloatText(s: string)
  {
    var body := if |s| > 0 && (s[0] == '+' || s[0] == '-') then s[1..] else s;
    var lower := Lower(body);
    lower == "inf" || lower == "infinity" || lower == "nan" || IsDecimalNumber(lower)
  }

  /** Into<Value> for &str and for String (the two are the same code),
      with the parse attempts in the order chosen by `variant`: as written,
      float first and then i64; corrected, i64 first. `round` is the
      nearest-float conversion of a text the float grammar accepts. */
  function FromText(s: string, round: string -> F64, variant: Variant): Result<Value>
  {
    FromTextBy(s, round, variant, 1)
  }

  /** FromText, whose definition is one step further away so that it is
      unfolded only where FromTextIs is called. */
  function FromTextBy(s: string, round: string -> F64, variant: Variant, steps: nat): Result<Value>
    decreases steps
  {
    if steps > 0 then FromTextBy(s, round, variant, steps - 1)
    else if variant == AsWritten && IsFloatText(s) then Ok(Float(round(s)))
    else if ParseI64(s).Some? then Ok(Integer(ParseI64(s).value))
    else if IsFloatText(s) then Ok(Float(round(s)))
    else
      var t :- StripQuotes(s);
      Ok(Text(t))
  }

  lemma FromTextIs(s: string, round: string -> F64, variant: Variant)
    ensures FromText(s, round, variant) == FromTextBy(s, round, variant, 0)
  {
  }

  lemma NoLetter(s: string, pat: string)
    requires AllDigits(s) && |pat| == 1 && !IsDigit(pat[0])
    ensures Find(s, pat, 0).None?
  {
    forall k: nat
      ensures !OccursAt(s, pat, k)
    {
      if k + 1 <= |s| {
        assert s[k..k + 1][0] == s[k];
      }
    }
  }

  /** Every text that parses as an integer also parses as a float. */
  lemma IntegerTextIsFloatText(s: string)
    requires ParseInt(s).Some?
    ensures IsFloatText(s)
  {
    var body := if |s| > 0 && (s[0] == '+' || s[0] == '-') then s[1..] else s;
    var lower := Lower(body);
    assert lower == body;
    NoLetter(body, "e");
    NoLetter(body, ".");
  }

  /** As written, text never becomes an Integer: anything i64 accepts the
      float parse accepts first, so "42" becomes a Float. */
  lemma NoIntegerFromText(s: string, round: string -> F64)
    ensures FromText(s, round, AsWritten).Ok? ==> !FromText(s, round, AsWritten).value.Integer?
  {
    FromTextIs(s, round, AsWritten);
    if ParseI64(s).Some? {
      IntegerTextIsFloatText(s);
    }
  }

  /** Corrected, a text that parses as an i64 becomes that Integer, and
      every other text is classified as before. */
  lemma IntegerTextIsInteger(s: string, round: string -> F64)
    ensures ParseI64(s).Some? ==> FromText(s, round, Corrected) == Ok(Integer(ParseI64(s).value))
    ensures ParseI64(s).None? ==> FromText(s, round, Corrected) == FromText(s, round, AsWritten)
  {
    FromTextIs(s, round, AsWritten);
    FromTextIs(s, round, Corrected);
  }

  /** The only text whose value cannot be taken is the lone double quote,
      on which strip_quotes panics; it is neither a float nor an integer. */
  lemma FromTextPanics(s: string, round: string -> F64, variant: Variant)
    ensures FromText(s, round, variant).Panic? <==> s == "\""
  {
    FromTextIs(s, round, variant);
    if s == "\"" {
      assert !IsDigit(s[0]);
      assert Lower(s) == s;
      assert !IsMantissa(s);
      assert Find(s, "e", 0).None?;
    }
  }

  /** Rendering an integer and classifying the text gives the integer back
      (with the corrected order of the parse attempts). */
  lemma IntegerRoundTrip(i: Int64, round: string -> F64, render: F64 -> string)
    ensures FromText(Display(Integer(i), render), round, Corrected) == Ok(Integer(i))
  {
    FromTextIs(Display(Integer(i), render), round, Corrected);
    DecimalParses(i);
  }
}
