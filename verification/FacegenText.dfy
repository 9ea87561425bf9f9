/** The text form of one face-generation exception: a form ID, and a plugin name after a colon.

Strings are byte strings. `Strtoul` is the C library's conversion on a platform whose `unsigned long` has
32 bits: blanks, a sign, an optional hexadecimal prefix, digits; too large a value saturates and sets the
range error. */
module FacegenText {
  import opened Options
  import opened Words

  const MAX64: nat := 0xFFFF_FFFF_FFFF_FFFF

  // ---------------------------------------------------------------- trimming

  predicate Blank(c: char) { c == ' ' || 9 <= c as int <= 13 }

  predicate AllBlank(s: string) { forall i :: 0 <= i < |s| ==> Blank(s[i]) }

  function Trimmed(s: string): string {
    if s == [] then []
    else if Blank(s[0]) then Trimmed(s[1..])
    else if Blank(s[|s| - 1]) then Trimmed(s[..|s| - 1])
    else s
  }

  predicate Tight(t: string) { t == [] || (!Blank(t[0]) && !Blank(t[|t| - 1])) }

  // Whatever tight text stands between blanks is what trimming finds.
  lemma {:induction false} TrimmedBetween(a: string, t: string, b: string)
    requires AllBlank(a) && AllBlank(b) && Tight(t)
    ensures Trimmed(a + t + b) == t
    decreases |a| + |b|
  {
    var s := a + t + b;
    if a != [] {
      assert s[1..] == a[1..] + t + b;
      TrimmedBetween(a[1..], t, b);
    } else if b != [] {
      if t == [] {
        assert s[1..] == a + t + b[1..] && Blank(s[0]);
        TrimmedBetween(a, t, b[1..]);
      } else {
        assert s[..|s| - 1] == a + t + b[..|b| - 1] && s[0] == t[0] && Blank(s[|s| - 1]);
        TrimmedBetween(a, t, b[..|b| - 1]);
      }
    } else {
      assert s == t;
    }
  }

  lemma {:induction false} TrimmedIsTight(s: string)
    ensures Tight(Trimmed(s)) && |Trimmed(s)| <= |s| && (forall c :: c in Trimmed(s) ==> c in s)
    ensures forall c :: c in s && !Blank(c) ==> c in Trimmed(s)
    ensures forall c: char :: Blank(c) <==> c as int in [32, 9, 10, 13, 12, 11]
    decreases |s|
  {
    if s == [] {
    } else if Blank(s[0]) {
      TrimmedIsTight(s[1..]);
      assert s == [s[0]] + s[1..];
    } else if Blank(s[|s| - 1]) {
      TrimmedIsTight(s[..|s| - 1]);
      assert s == s[..|s| - 1] + [s[|s| - 1]];
    }
  }

  lemma TrimmedTwice(s: string)
    ensures Trimmed(Trimmed(s)) == Trimmed(s)
  {}

  // A field of the exception, trimmed in place.
  class Field {
    var text: string

    constructor (text: string)
      ensures this.text == text
    {
      this.text := text;
    }

    method Trim()
      modifies this
      ensures text == Trimmed(old(text))
    {
      var first: nat := 0;
      while first < |text| && Blank(text[first])
        invariant first <= |text| && AllBlank(text[..first])
      {
        first := first + 1;
      }
      if first == |text| {
        TrimmedBetween(text, [], []);
        assert text + [] + [] == text;
        text := [];
        return;
      }
      var end := |text|;
      while Blank(text[end - 1])
        invariant first < end <= |text| && AllBlank(text[end..])
        decreases end
      {
        end := end - 1;
      }
      TrimmedBetween(text[..first], text[first..end], text[end..]);
      assert text == text[..first] + text[first..end] + text[end..];
      text := text[..end];
      text := text[first..];
    }
  }

  // ---------------------------------------------------------------- value text

  datatype Parsed = Parsed(formID: string, plugin: Option<string>)

  function IndexOf(s: string, c: char): (i: nat)
    ensures i <= |s| && (i < |s| ==> s[i] == c) && (forall j :: 0 <= j < i ==> s[j] != c)
  {
    if s == [] || s[0] == c then 0 else 1 + IndexOf(s[1..], c)
  }

  function ParseValue(s: string): Parsed {
    var k := IndexOf(s, ':');
    if k == |s| then Parsed(Trimmed(s), None) else Parsed(Trimmed(s[..k]), Some(Trimmed(s[k + 1..])))
  }

  function SerializeValue(formID: string, plugin: Option<string>): string {
    if plugin.Some? && Trimmed(plugin.value) != [] then Trimmed(formID) + [':'] + Trimmed(plugin.value)
    else Trimmed(formID)
  }

  // What a form ID and a plugin come back as.
  function Normal(formID: string, plugin: Option<string>): Parsed {
    Parsed(Trimmed(formID), if plugin.Some? && Trimmed(plugin.value) != [] then Some(Trimmed(plugin.value)) else None)
  }

  lemma ColonSurvives(s: string)
    ensures ':' in s <==> ':' in Trimmed(s)
  {}

  lemma FirstColon(a: string, b: string)
    requires ':' !in a
    ensures IndexOf(a + [':'] + b, ':') == |a|
  {
    var s := a + [':'] + b;
    assert s[|a|] == ':' && forall j :: 0 <= j < |a| ==> s[j] == a[j];
  }

  lemma NoColon(a: string)
    requires ':' !in a
    ensures IndexOf(a, ':') == |a|
  {}

  lemma ParsedHasNoColon(s: string)
    ensures ':' !in ParseValue(s).formID
  {
    var k := IndexOf(s, ':');
    ColonSurvives(s[..k]);
    assert k == |s| ==> s[..k] == s;
  }

  /** Serialising and parsing gives back the trimmed form ID and plugin exactly when the form ID holds no
  colon. */
  lemma SerializeParse(formID: string, plugin: Option<string>)
    ensures ParseValue(SerializeValue(formID, plugin)) == Normal(formID, plugin) <==> ':' !in formID
  {
    hide IndexOf;
    var id := Trimmed(formID);
    ColonSurvives(formID);
    TrimmedTwice(formID);
    if ':' in formID {
      ParsedHasNoColon(SerializeValue(formID, plugin));
    } else if plugin.Some? && Trimmed(plugin.value) != [] {
      var name := Trimmed(plugin.value);
      TrimmedTwice(plugin.value);
      FirstColon(id, name);
      assert (id + [':'] + name)[..|id|] == id && (id + [':'] + name)[|id| + 1..] == name;
    } else {
      NoColon(id);
    }
  }

  // A colon in the form ID is taken for the separator.
  lemma ColonSplits()
    ensures ParseValue(SerializeValue("1:2", None)) == Parsed("1", Some("2"))
  {
    var s := "1:2";
    assert Trimmed(s) == s && SerializeValue(s, None) == s;
    FirstColon("1", "2");
    assert s == "1" + [':'] + "2" && s[..1] == "1" && s[2..] == "2";
  }

  // Text that was parsed once is stable: writing it and reading it again changes nothing more.
  lemma ParseSerialize(s: string)
    ensures var p := ParseValue(s); ParseValue(SerializeValue(p.formID, p.plugin)) == Normal(p.formID, p.plugin)
    ensures var p := ParseValue(s); p.plugin != Some([]) ==> Normal(p.formID, p.plugin) == p
  {
    hide IndexOf;
    var k := IndexOf(s, ':');
    ParsedHasNoColon(s);
    SerializeParse(ParseValue(s).formID, ParseValue(s).plugin);
    TrimmedTwice(s);
    TrimmedTwice(s[..k]);
    if k < |s| {
      TrimmedTwice(s[k + 1..]);
    }
  }

  // ---------------------------------------------------------------- numbers

  predicate IsDigit(c: char, base: nat) {
    '0' <= c <= '9' || (base == 16 && ('a' <= c <= 'f' || 'A' <= c <= 'F'))
  }

  function DigitOf(c: char): nat
    requires IsDigit(c, 16)
  {
    if c <= '9' then c as int - '0' as int
    else if c <= 'F' then c as int - 'A' as int + 10
    else c as int - 'a' as int + 10
  }

  predicate AllDigits(s: string, base: nat) { forall i :: 0 <= i < |s| ==> IsDigit(s[i], base) }

  function Positional(s: string, base: nat): nat
    requires AllDigits(s, base) && (base == 10 || base == 16)
  {
    if s == [] then 0 else Positional(s[..|s| - 1], base) * base + DigitOf(s[|s| - 1])
  }

  function SkipBlanks(s: string): (k: nat)
    ensures k <= |s|
  {
    if s == [] || !Blank(s[0]) then 0 else 1 + SkipBlanks(s[1..])
  }

  function DigitRun(s: string, base: nat): (k: nat)
    ensures k <= |s| && AllDigits(s[..k], base) && (k < |s| ==> !IsDigit(s[k], base))
  {
    if s == [] || !IsDigit(s[0], base) then 0 else 1 + DigitRun(s[1..], base)
  }

  // Value, characters used, and whether the value was out of range.
  datatype Number = Number(value: nat, used: nat, range: bool)

  // A hexadecimal prefix counts as one when a digit follows it.
  function PrefixLength(t: string, base: nat): (n: nat)
    ensures n <= |t|
  {
    if base == 16 && |t| > 2 && t[0] == '0' && (t[1] == 'x' || t[1] == 'X') && IsDigit(t[2], 16) then 2 else 0
  }

  function Strtoul(s: string, base: nat, max: nat): (n: Number)
    requires base == 10 || base == 16
    ensures n.used <= |s|
  {
    var blanks := SkipBlanks(s);
    var sign := if blanks < |s| && (s[blanks] == '+' || s[blanks] == '-') then 1 else 0;
    var at := blanks + sign;
    var prefix := PrefixLength(s[at..], base);
    var from := s[at..][prefix..];
    var k := DigitRun(from, base);
    if k == 0 then Number(0, 0, false)
    else
      var v := Positional(from[..k], base);
      if v > max then Number(max, at + prefix + k, true)
      else if sign == 1 && s[blanks] == '-' && v != 0 then Number(max + 1 - v, at + prefix + k, false)
      else Number(v, at + prefix + k, false)
  }

  predicate Hexadecimal(s: string) { |s| >= 2 && s[0] == '0' && (s[1] == 'x' || s[1] == 'X') }

  function ParseFormID(s: string): nat {
    if Hexadecimal(s) then Strtoul(s[2..], 16, MAX32).value else Strtoul(s, 10, MAX32).value
  }

  // The text of a number: digits of its base, with the prefix that tells a hexadecimal one.
  ghost predicate Denotes(s: string, n: nat) {
    var t := Trimmed(s);
    var base := if Hexadecimal(t) then 16 else 10;
    var digits := if Hexadecimal(t) then t[2..] else t;
    digits != [] && AllDigits(digits, base) && n == Positional(digits, base)
  }

  lemma StrtoulDigits(s: string, base: nat, max: nat)
    requires s != [] && AllDigits(s, base) && (base == 10 || base == 16)
    ensures var n := Strtoul(s, base, max);
            && n.used == |s| && n.range == (Positional(s, base) > max)
            && (Positional(s, base) <= max ==> n.value == Positional(s, base))
  {
    hide Positional;
    assert SkipBlanks(s) == 0;
    assert s[0..] == s && PrefixLength(s, base) == 0;
    var k := DigitRun(s, base);
    assert k == |s|;
    assert s[..k] == s;
  }

  lemma {:induction false} BlanksSkipped(blanks: string, t: string)
    requires AllBlank(blanks) && t != [] && !Blank(t[0])
    ensures SkipBlanks(blanks + t) == |blanks|
    decreases |blanks|
  {
    if blanks == [] {
      assert blanks + t == t;
    } else {
      assert (blanks + t)[1..] == blanks[1..] + t;
      BlanksSkipped(blanks[1..], t);
    }
  }

  lemma {:induction false} DigitsRun(digits: string, rest: string, base: nat)
    requires AllDigits(digits, base) && (rest != [] ==> !IsDigit(rest[0], base))
    ensures DigitRun(digits + rest, base) == |digits|
    decreases |digits|
  {
    if digits == [] {
      assert digits + rest == rest;
    } else {
      assert (digits + rest)[1..] == digits[1..] + rest;
      DigitsRun(digits[1..], rest, base);
    }
  }

  // The digits and what follows them do not look like a prefix themselves.
  predicate NotPrefix(digits: string, rest: string) {
    digits == "0" && |rest| >= 2 && (rest[0] == 'x' || rest[0] == 'X') ==> !IsDigit(rest[1], 16)
  }

  lemma PrefixFound(prefix: string, digits: string, rest: string, base: nat)
    requires prefix == "" || (base == 16 && (prefix == "0x" || prefix == "0X"))
    requires digits != [] && AllDigits(digits, base) && (base == 16 && prefix == "" ==> NotPrefix(digits, rest))
    ensures PrefixLength(prefix + (digits + rest), base) == |prefix|
  {
    var t := prefix + (digits + rest);
    if prefix == "" {
      assert t == digits + rest && t[0] == digits[0];
      assert |digits| > 1 ==> t[1] == digits[1];
      assert |digits| == 1 && |rest| > 0 ==> t[1] == rest[0];
      assert |digits| == 1 && |rest| > 1 ==> t[2] == rest[1];
    } else {
      assert t[0] == prefix[0] && t[1] == prefix[1] && t[2] == digits[0];
    }
  }

  /** The C conversion of any text: blanks, a sign, in base sixteen a prefix, digits, and what follows them. A value too
  large gives the largest one, whatever its sign; a minus sign negates modulo the width. */
  lemma StrtoulReads(blanks: string, sign: string, prefix: string, digits: string, rest: string, base: nat, max: nat)
    requires (base == 10 || base == 16) && AllBlank(blanks) && (sign == "" || sign == "+" || sign == "-")
    requires prefix == "" || (base == 16 && (prefix == "0x" || prefix == "0X"))
    requires digits != [] && AllDigits(digits, base) && (rest != [] ==> !IsDigit(rest[0], base))
    requires base == 16 && prefix == "" ==> NotPrefix(digits, rest)
    ensures var n, v := Strtoul(blanks + (sign + (prefix + (digits + rest))), base, max), Positional(digits, base);
            && n.used == |blanks| + |sign| + |prefix| + |digits|
            && n.range == (v > max)
            && n.value == if v > max then max else if sign == "-" then (max + 1 - v) % (max + 1) else v
  {
    hide Strtoul, Positional, PrefixLength, DigitRun, SkipBlanks;
    var body := prefix + (digits + rest);
    var s, at := blanks + (sign + body), |blanks| + |sign|;
    BodyStarts(prefix, digits, rest);
    assert (sign + body)[0] == if sign == "" then body[0] else sign[0];
    BlanksSkipped(blanks, sign + body);
    assert s[|blanks|] == (sign + body)[0];
    PrefixFound(prefix, digits, rest, base);
    assert s[at..] == body && body[|prefix|..] == digits + rest;
    DigitsRun(digits, rest, base);
    assert (digits + rest)[..|digits|] == digits;
    StrtoulParts(s, base, max, |blanks|, |sign|, |prefix|, digits);
    Negated(Positional(digits, base), max);
  }

  lemma BodyStarts(prefix: string, digits: string, rest: string)
    requires prefix == "" || prefix == "0x" || prefix == "0X"
    requires digits != [] && AllDigits(digits, 16)
    ensures var c := (prefix + (digits + rest))[0]; !Blank(c) && c != '+' && c != '-'
  {
    assert (prefix + (digits + rest))[0] == if prefix == "" then digits[0] else prefix[0];
  }

  lemma StrtoulParts(s: string, base: nat, max: nat, blanks: nat, sign: nat, prefix: nat, digits: string)
    requires (base == 10 || base == 16) && SkipBlanks(s) == blanks < |s| && blanks + sign <= |s|
    requires sign == if s[blanks] == '+' || s[blanks] == '-' then 1 else 0
    requires PrefixLength(s[blanks + sign..], base) == prefix <= |s| - blanks - sign
    requires var from := s[blanks + sign..][prefix..];
             DigitRun(from, base) == |digits| > 0 && from[..|digits|] == digits
    requires AllDigits(digits, base)
    ensures var n, v := Strtoul(s, base, max), Positional(digits, base);
            && n.used == blanks + sign + prefix + |digits|
            && n.range == (v > max)
            && n.value == if v > max then max else if s[blanks] == '-' && v != 0 then max + 1 - v else v
  {
    hide Positional, PrefixLength, DigitRun, SkipBlanks;
  }

  lemma Negated(v: nat, max: nat)
    ensures v <= max ==> (max + 1 - v) % (max + 1) == if v == 0 then 0 else max + 1 - v
  {}

  /** Accepts exactly the texts that denote a value of 32 bits, and returns that value; on refusal the
  caller's value is left as it was. */
  method TryParseFormID(value: string, formID: nat) returns (ok: bool, parsed: nat)
    ensures ok <==> exists n: nat :: Denotes(value, n) && n <= MAX32
    ensures ok ==> Denotes(value, parsed) && parsed <= MAX32
    ensures !ok ==> parsed == formID
  {
    ok, parsed := false, formID;
    var field := new Field(value);
    field.Trim();
    var text := field.text;
    if text == [] {
      return;
    }
    var base: nat := if Hexadecimal(text) then 16 else 10;
    var digits := if Hexadecimal(text) then text[2..] else text;
    if digits == [] {
      return;
    }
    var k: nat := 0;
    while k < |digits|
      invariant k <= |digits| && AllDigits(digits[..k], base)
    {
      if !IsDigit(digits[k], base) {
        return;
      }
      k := k + 1;
    }
    assert digits[..k] == digits;
    var n := Strtoul(digits, base, MAX64);
    StrtoulDigits(digits, base, MAX64);
    StrtoulDigits(digits, base, MAX32);
    assert Denotes(value, Positional(digits, base));
    if n.range || n.used != |digits| || n.value > MAX32 {
      return;
    }
    ok, parsed := true, ParseFormID(text);
  }

  // ---------------------------------------------------------------- digits and the numbers they stand for

  function DigitFor(d: nat): (c: char)
    requires d < 16
    ensures IsDigit(c, if d < 10 then 10 else 16) && DigitOf(c) == d && !Blank(c) && Raised(c) == c
  {
    if d < 10 then '0' + d as char else 'A' + (d - 10) as char
  }

  // The last `width` digits of a number, found by dividing it again and again.
  function DigitsOf(n: nat, base: nat, width: nat): (s: string)
    requires base == 10 || base == 16
    ensures |s| == width && AllDigits(s, base) && (forall i :: 0 <= i < |s| ==> !Blank(s[i]))
    decreases width
  {
    if width == 0 then [] else DigitsOf(n / base, base, width - 1) + [DigitFor(n % base)]
  }

  function Power(base: nat, k: nat): nat { if k == 0 then 1 else base * Power(base, k - 1) }

  lemma {:induction false} DigitsValue(n: nat, base: nat, width: nat)
    requires base == 10 || base == 16
    requires n < Power(base, width)
    ensures Positional(DigitsOf(n, base, width), base) == n
    decreases width
  {
    hide Power;
    if width > 0 {
      PowerStep(base, width, n);
      DigitsValue(n / base, base, width - 1);
      var s := DigitsOf(n, base, width);
      assert s[..|s| - 1] == DigitsOf(n / base, base, width - 1);
    } else {
      PowerOfNone(base);
    }
  }

  lemma PowerStep(base: nat, width: nat, n: nat)
    requires (base == 10 || base == 16) && width > 0 && n < Power(base, width)
    ensures n / base < Power(base, width - 1) && n / base * base + n % base == n && n % base < base
  {
    Divided(n, base, Power(base, width - 1));
  }

  lemma Divided(n: nat, base: nat, bound: nat)
    requires (base == 10 || base == 16) && n < base * bound
    ensures n / base < bound && n / base * base + n % base == n && n % base < base
  {
    if base == 10 {
      assert n / 10 < bound;
    } else {
      assert n / 16 < bound;
    }
  }

  lemma PowerOfNone(base: nat)
    ensures Power(base, 0) == 1
  {}

  // Upper case, as far as digits and the prefix go.
  function Raised(c: char): char { if 'a' <= c <= 'z' then c - 'a' + 'A' else c }

  function Upper(s: string): (r: string)
    ensures |r| == |s| && forall i :: 0 <= i < |s| ==> r[i] == Raised(s[i])
  {
    seq(|s|, i requires 0 <= i < |s| => Raised(s[i]))
  }

  lemma RaisedDigit(c: char, base: nat)
    requires base == 10 || base == 16
    ensures IsDigit(Raised(c), base) <==> IsDigit(c, base)
    ensures IsDigit(c, base) ==> DigitOf(Raised(c)) == DigitOf(c) < base && Raised(c) == DigitFor(DigitOf(c))
  {}

  // Digits are those of their value, but for case: the conversion loses nothing else.
  lemma {:induction false} ValueDigits(s: string, base: nat)
    requires AllDigits(s, base) && (base == 10 || base == 16)
    ensures Positional(s, base) < Power(base, |s|) && DigitsOf(Positional(s, base), base, |s|) == Upper(s)
    decreases |s|
  {
    hide DigitFor, DigitOf, Raised;
    if s != [] {
      var most, c := s[..|s| - 1], s[|s| - 1];
      ValueDigits(most, base);
      RaisedDigit(c, base);
      OneDigitMore(Positional(most, base), base, DigitOf(c), Power(base, |most|));
      assert Upper(s) == Upper(most) + [Raised(c)];
    }
  }

  lemma OneDigitMore(n: nat, base: nat, d: nat, bound: nat)
    requires n < bound && d < base && (base == 10 || base == 16)
    ensures n * base + d < base * bound
    ensures (n * base + d) / base == n && (n * base + d) % base == d
  {}

  // Case does not matter to a value.
  lemma {:induction false} SameValue(s: string, base: nat)
    requires base == 10 || base == 16
    ensures AllDigits(Upper(s), base) <==> AllDigits(s, base)
    ensures AllDigits(s, base) ==> Positional(Upper(s), base) == Positional(s, base)
    decreases |s|
  {
    forall i | 0 <= i < |s|
      ensures IsDigit(Upper(s)[i], base) <==> IsDigit(s[i], base)
    {
      RaisedDigit(s[i], base);
    }
    if s != [] {
      SameValue(s[..|s| - 1], base);
      RaisedDigit(s[|s| - 1], base);
      assert Upper(s)[..|s| - 1] == Upper(s[..|s| - 1]);
    }
  }

  /** What a text denotes, told from the number: trimmed, and but for case, it is `0x` and the number's last
  hexadecimal digits, or the number's last decimal digits, in both cases as many as it takes or more. */
  lemma DenotesExactly(s: string, n: nat)
    ensures Denotes(s, n) <==> exists width: nat :: width > 0 && WrittenIn(Upper(Trimmed(s)), n, width)
  {
    hide WrittenIn;
    var t := Trimmed(s);
    if Denotes(s, n) {
      DenotedIsWritten(t, n);
    }
    if exists width: nat :: width > 0 && WrittenIn(Upper(t), n, width) {
      var width: nat :| width > 0 && WrittenIn(Upper(t), n, width);
      WrittenDenotes(s, n, width);
    }
  }

  ghost predicate WrittenIn(t: string, n: nat, width: nat) {
    || (n < Power(16, width) && t == "0X" + DigitsOf(n, 16, width))
    || (n < Power(10, width) && t == DigitsOf(n, 10, width))
  }

  lemma DenotedIsWritten(t: string, n: nat)
    requires var base, digits := if Hexadecimal(t) then 16 else 10, if Hexadecimal(t) then t[2..] else t;
             digits != [] && AllDigits(digits, base) && n == Positional(digits, base)
    ensures WrittenIn(Upper(t), n, if Hexadecimal(t) then |t| - 2 else |t|)
  {
    hide Positional, DigitsOf, Power;
    var digits := if Hexadecimal(t) then t[2..] else t;
    ValueDigits(digits, if Hexadecimal(t) then 16 else 10);
    if Hexadecimal(t) {
      assert Upper(t) == "0X" + Upper(digits);
    }
  }

  lemma WrittenDenotes(s: string, n: nat, width: nat)
    requires width > 0 && WrittenIn(Upper(Trimmed(s)), n, width)
    ensures Denotes(s, n)
  {
    hide Positional, DigitsOf, Power, AllDigits, Hexadecimal;
    var t := Trimmed(s);
    if n < Power(16, width) && Upper(t) == "0X" + DigitsOf(n, 16, width) {
      HexadecimalText(t, n, width);
    } else {
      DecimalText(t, n, width);
    }
  }

  lemma HexadecimalText(t: string, n: nat, width: nat)
    requires n < Power(16, width) && Upper(t) == "0X" + DigitsOf(n, 16, width)
    ensures |t| == width + 2 && Hexadecimal(t) && AllDigits(t[2..], 16) && Positional(t[2..], 16) == n
  {
    hide Positional, DigitsOf, Power;
    assert Raised(t[0]) == Upper(t)[0] == '0' && Raised(t[1]) == Upper(t)[1] == 'X';
    assert Upper(t[2..]) == Upper(t)[2..] == DigitsOf(n, 16, width);
    SameValue(t[2..], 16);
    DigitsValue(n, 16, width);
  }

  lemma DecimalText(t: string, n: nat, width: nat)
    requires n < Power(10, width) && Upper(t) == DigitsOf(n, 10, width)
    ensures |t| == width && !Hexadecimal(t) && AllDigits(t, 10) && Positional(t, 10) == n
  {
    hide Positional, DigitsOf, Power;
    assert |t| >= 2 ==> IsDigit(Upper(t)[1], 10);
    SameValue(t, 10);
    DigitsValue(n, 10, width);
  }

  // Upper and lower case, in the digits and in the prefix, denote the same.
  lemma CaseIsIdle(s: string, t: string, n: nat)
    requires Upper(Trimmed(s)) == Upper(Trimmed(t))
    ensures Denotes(s, n) <==> Denotes(t, n)
  {
    DenotesExactly(s, n);
    DenotesExactly(t, n);
  }

  // A number written with its decimal digits, leading zeros or not and blanks around it or not, is read back.
  lemma DecimalIsRead(n: nat, width: nat, before: string, after: string)
    requires width > 0 && n < Power(10, width) && AllBlank(before) && AllBlank(after)
    ensures Denotes(before + DigitsOf(n, 10, width) + after, n)
  {
    var t := DigitsOf(n, 10, width);
    TrimmedBetween(before, t, after);
    DigitsValue(n, 10, width);
  }

  // The log's `0x` and eight digits is read back as the form ID it was printed from, blanks around it or not.
  lemma PrintedIsRead(formID: nat, before: string, after: string)
    requires formID <= MAX32 && AllBlank(before) && AllBlank(after)
    ensures Denotes(before + ("0x" + DigitsOf(formID, 16, 8)) + after, formID)
  {
    var t := "0x" + DigitsOf(formID, 16, 8);
    TrimmedBetween(before, t, after);
    assert t[2..] == DigitsOf(formID, 16, 8);
    assert Power(16, 8) == MAX32 + 1 by {
      assert Power(16, 4) == 0x1_0000;
      assert Power(16, 8) == 16 * (16 * (16 * (16 * Power(16, 4))));
    }
    DigitsValue(formID, 16, 8);
  }
}
