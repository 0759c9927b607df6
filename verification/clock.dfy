/** The countdown clock text: remaining seconds shown as minutes, a colon and
    two-digit seconds (`updateTimerDisplay` in src/script.js), together with
    the parser that reads such a text back. */
module Clock {
  import opened Wrappers

  predicate IsDigit(c: char) {
    '0' <= c <= '9'
  }

  predicate AllDigits(s: string) {
    forall i :: 0 <= i < |s| ==> IsDigit(s[i])
  }

  /** A decimal numeral as JavaScript prints a non-negative integer: at least
      one digit and no leading zero unless the number is zero itself. */
  predicate Canonical(s: string) {
    |s| >= 1 && AllDigits(s) && (|s| == 1 || s[0] != '0')
  }

  function DigitChar(n: nat): (c: char)
    requires n < 10
    ensures IsDigit(c)
  {
    (n + '0' as int) as char
  }

  lemma DigitRoundTrip(n: nat)
    requires n < 10
    ensures DigitValue(DigitChar(n)) == n
  {
  }

  function DigitValue(c: char): (n: nat)
    requires IsDigit(c)
    ensures n < 10 && DigitChar(n) == c
  {
    c as int - '0' as int
  }

  /** The decimal text of `n`, most significant digit first. */
  function DecimalString(n: nat): (s: string)
    ensures Canonical(s)
    ensures n < 10 <==> |s| == 1
    ensures n < 100 ==> |s| <= 2
    decreases n
  {
    if n < 10 then [DigitChar(n)]
    else DecimalString(n / 10) + [DigitChar(n % 10)]
  }

  /** The number a string of digits denotes. */
  function Value(s: string): (n: nat)
    requires AllDigits(s)
    decreases |s|
  {
    if |s| == 0 then 0
    else Value(s[..|s| - 1]) * 10 + DigitValue(s[|s| - 1])
  }

  /** `s.padStart(width, fill)` for a one-character fill: `fill` repeated in
      front of `s` until it is `width` long; a longer `s` is left alone. */
  function PadStart(s: string, width: nat, fill: char): (r: string)
    ensures |r| == if |s| >= width then |s| else width
    ensures r[|r| - |s|..] == s
    ensures forall i :: 0 <= i < |r| - |s| ==> r[i] == fill
  {
    if |s| >= width then s else seq(width - |s|, _ => fill) + s
  }

  /** The clock text for `remaining` seconds, e.g. 125 gives "2:05". */
  function FormatClock(remaining: nat): (s: string)
    ensures |s| >= 4 && s[|s| - 3] == ':'
  {
    DecimalString(remaining / 60) + ":" + PadStart(DecimalString(remaining % 60), 2, '0')
  }

  /** Reads a clock text back: canonical minutes, a colon, then exactly two
      digits of seconds below 60. Anything else is rejected. */
  function ParseClock(s: string): Option<nat> {
    if |s| < 4 then None
    else
      var i := |s| - 3;
      if s[i] == ':' && Canonical(s[..i]) && AllDigits(s[i + 1..]) && Value(s[i + 1..]) < 60
      then Some(Value(s[..i]) * 60 + Value(s[i + 1..]))
      else None
  }

  /** A two-digit string denotes tens times ten plus units. */
  lemma TwoDigitValue(s: string)
    requires |s| == 2 && AllDigits(s)
    ensures Value(s) == DigitValue(s[0]) * 10 + DigitValue(s[1])
  {
    var t := s[..1];
    assert s[..|s| - 1] == t;
    assert t[..|t| - 1] == [];
    assert Value(t) == DigitValue(s[0]);
  }

  /** The decimal text of `n` denotes `n`. */
  lemma {:induction false} ValueOfDecimal(n: nat)
    ensures Value(DecimalString(n)) == n
    decreases n
  {
    if n >= 10 {
      var t := DecimalString(n / 10);
      ValueOfDecimal(n / 10);
      assert (t + [DigitChar(n % 10)])[..|t|] == t;
    }
  }

  /** Only a string of zeros denotes zero. */
  lemma {:induction false} ZeroValue(s: string)
    requires AllDigits(s) && |s| >= 1 && s[0] != '0'
    ensures Value(s) >= 1
    decreases |s|
  {
    if |s| > 1 {
      ZeroValue(s[..|s| - 1]);
    }
  }

  /** A canonical numeral is the decimal text of the number it denotes. */
  lemma {:induction false} DecimalOfValue(s: string)
    requires Canonical(s)
    ensures DecimalString(Value(s)) == s
    decreases |s|
  {
    if |s| > 1 {
      var t := s[..|s| - 1];
      var c := s[|s| - 1];
      ZeroValue(t);
      DecimalOfValue(t);
      assert Value(s) / 10 == Value(t);
      assert Value(s) % 10 == DigitValue(c);
      assert s == t + [c];
    }
  }

  /** The seconds field is always two digits: the tens and the units. */
  lemma SecondsField(n: nat)
    requires n < 100
    ensures PadStart(DecimalString(n), 2, '0') == [DigitChar(n / 10), DigitChar(n % 10)]
  {
    if n >= 10 {
      assert DecimalString(n / 10) == [DigitChar(n / 10)];
    }
  }

  /** The fields of a clock text: everything before the last three
      characters is the minutes, then a colon, then two digits of seconds. */
  predicate HasFields(s: string, q: nat, v: nat) {
    && |s| >= 4 && s[|s| - 3] == ':'
    && Canonical(s[..|s| - 3]) && AllDigits(s[|s| - 2..])
    && Value(s[..|s| - 3]) == q && Value(s[|s| - 2..]) == v && v < 60
  }

  /** The parser accepts a text with fields and reads minutes times 60 plus
      seconds. */
  lemma ParseOfFields(s: string, q: nat, v: nat, r: nat)
    requires HasFields(s, q, v) && r == q * 60 + v
    ensures ParseClock(s) == Some(r)
  {
  }

  /** A text the parser accepts has fields. */
  lemma FieldsOfParse(s: string, r: nat)
    requires ParseClock(s) == Some(r)
    ensures HasFields(s, Value(s[..|s| - 3]), Value(s[|s| - 2..]))
    ensures r == Value(s[..|s| - 3]) * 60 + Value(s[|s| - 2..])
  {
  }

  /** A minutes text, a colon and a seconds text form a text with fields. */
  lemma FieldsOfParts(s: string, m: string, ss: string, q: nat, v: nat)
    requires s == m + ":" + ss && Canonical(m) && |ss| == 2 && AllDigits(ss)
    requires Value(m) == q && Value(ss) == v && v < 60
    ensures HasFields(s, q, v)
  {
    SplitText(s, m, ss);
  }

  /** The clock text of `r` has the fields `r / 60` and `r % 60`. */
  lemma FormatHasFields(r: nat)
    ensures HasFields(FormatClock(r), r / 60, r % 60)
  {
    var q, v := r / 60, r % 60;
    var m := DecimalString(q);
    var ss := PadStart(DecimalString(v), 2, '0');
    SecondsField(v);
    TwoDigitValue(ss);
    DigitRoundTrip(v / 10);
    DigitRoundTrip(v % 10);
    ValueOfDecimal(q);
    FieldsOfParts(FormatClock(r), m, ss, q, v);
  }

  lemma SplitText(s: string, m: string, ss: string)
    requires s == m + ":" + ss && |ss| == 2
    ensures |s| >= 3 && s[..|s| - 3] == m && s[|s| - 3] == ':' && s[|s| - 2..] == ss
  {
    assert s[..|s| - 3] == m;
    assert s[|s| - 2..] == ss;
  }

  /** A text with fields is the clock text of the seconds they denote. */
  lemma FieldsFormat(s: string, q: nat, v: nat)
    requires HasFields(s, q, v)
    ensures FormatClock(q * 60 + v) == s
  {
    var m, ss := s[..|s| - 3], s[|s| - 2..];
    assert s == m + ":" + ss;
    SecondsText(ss, v);
    DecimalOfValue(m);
    DivMod60(q, v);
  }

  /** Two digits denoting less than 60 are the padded decimal text of it. */
  lemma SecondsText(ss: string, v: nat)
    requires |ss| == 2 && AllDigits(ss) && Value(ss) == v && v < 60
    ensures PadStart(DecimalString(v), 2, '0') == ss
  {
    var tens, units := DigitValue(ss[0]), DigitValue(ss[1]);
    TwoDigitValue(ss);
    DivMod10(tens, units);
    assert ss == [DigitChar(v / 10), DigitChar(v % 10)];
    SecondsField(v);
  }

  /** Reading a clock text back gives the seconds it was made from. */
  lemma ParseFormat(r: nat)
    ensures ParseClock(FormatClock(r)) == Some(r)
  {
    FormatHasFields(r);
    ParseOfFields(FormatClock(r), r / 60, r % 60, r);
  }

  /** Every text the parser accepts is exactly the clock text of the number
      it reads, so the clock text and the parser are inverse to each other. */
  lemma FormatParse(s: string, r: nat)
    requires ParseClock(s) == Some(r)
    ensures FormatClock(r) == s
  {
    FieldsOfParse(s, r);
    FieldsFormat(s, Value(s[..|s| - 3]), Value(s[|s| - 2..]));
  }

  lemma DivMod10(q: nat, v: nat)
    requires v < 10
    ensures (q * 10 + v) / 10 == q && (q * 10 + v) % 10 == v
  {
  }

  lemma DivMod60(q: nat, v: nat)
    requires v < 60
    ensures (q * 60 + v) / 60 == q && (q * 60 + v) % 60 == v
  {
  }
}
