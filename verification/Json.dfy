/** JSON texts: a reader following RFC 8259 and a compact writer that it undoes. */
module Json {
  import opened Options

  /** A number token in its parts (section 6): -? whole (. fraction)? (e sign? digits)?; an empty
      fraction means there is none. */
  datatype Number = Number(negative: bool, whole: string, fraction: string, exponent: Option<Exponent>)

  datatype Exponent = Exponent(sign: string, digits: string)

  datatype Value =
    | JNull
    | JBool(b: bool)
    | JNumber(num: Number)
    | JString(s: string)
    | JArray(items: seq<Value>)
    | JObject(members: seq<(string, Value)>)

  // ---------------------------------------------------------------- lexical helpers

  predicate IsDigit(c: char) { '0' <= c <= '9' }

  predicate AllDigits(s: string) { forall i | 0 <= i < |s| :: IsDigit(s[i]) }

  predicate IsSpace(c: char) { c == ' ' || c == '\t' || c == '\n' || c == '\r' }

  function SkipSpace(s: string): (r: string)
    ensures |r| <= |s|
    ensures s != "" && !IsSpace(s[0]) ==> r == s
  {
    if s != "" && IsSpace(s[0]) then SkipSpace(s[1..]) else s
  }

  predicate StartsWith(s: string, c: char) { s != "" && s[0] == c }

  // ---------------------------------------------------------------- strings (section 7)

  function HexValue(c: char): Option<nat> {
    if '0' <= c <= '9' then Some((c as int) - ('0' as int))
    else if 'a' <= c <= 'f' then Some((c as int) - ('a' as int) + 10)
    else if 'A' <= c <= 'F' then Some((c as int) - ('A' as int) + 10)
    else None
  }

  /** The code unit written by four hexadecimal digits. */
  function HexUnit(s: string): (r: Option<nat>)
    requires |s| == 4
    ensures r.Some? ==> r.value < 0x1_0000
  {
    var a, b, c, d := HexValue(s[0]), HexValue(s[1]), HexValue(s[2]), HexValue(s[3]);
    if a.Some? && b.Some? && c.Some? && d.Some? && a.value < 16 && b.value < 16 && c.value < 16 && d.value < 16
    then Some(4096 * a.value + 256 * b.value + 16 * c.value + d.value)
    else None
  }

  /** The character after a backslash; s starts behind the backslash. Surrogate halves must pair up. */
  function ReadEscape(s: string): (r: Option<(char, string)>)
    ensures r.Some? ==> |r.value.1| < |s|
  {
    if s == "" then None
    else if s[0] in "\"\\/" then Some((s[0], s[1..]))
    else if s[0] == 'b' then Some((8 as char, s[1..]))
    else if s[0] == 'f' then Some((12 as char, s[1..]))
    else if s[0] == 'n' then Some(('\n', s[1..]))
    else if s[0] == 'r' then Some(('\r', s[1..]))
    else if s[0] == 't' then Some(('\t', s[1..]))
    else if s[0] == 'u' && |s| >= 5 && HexUnit(s[1..5]).Some? then
      var unit := HexUnit(s[1..5]).value;
      if unit < 0xD800 || 0xE000 <= unit then Some((unit as char, s[5..]))
      else if unit < 0xDC00 && |s| >= 11 && s[5] == '\\' && s[6] == 'u' && HexUnit(s[7..11]).Some? then
        var low := HexUnit(s[7..11]).value;
        if 0xDC00 <= low < 0xE000
        then Some(((0x1_0000 + (unit - 0xD800) * 0x400 + (low - 0xDC00)) as char, s[11..]))
        else None
      else None
    else None
  }

  /** The rest of a string behind its opening quote: its value and what follows the closing quote. */
  function ReadString(s: string): (r: Option<(string, string)>)
    ensures r.Some? ==> |r.value.1| < |s|
    decreases |s|
  {
    if s == "" then None
    else if s[0] == '"' then Some(("", s[1..]))
    else if s[0] < ' ' then None
    else
      var c := if s[0] == '\\' then ReadEscape(s[1..]) else Some((s[0], s[1..]));
      if c.None? then None
      else
        var tail := ReadString(c.value.1);
        if tail.None? then None else Some(([c.value.0] + tail.value.0, tail.value.1))
  }

  // ---------------------------------------------------------------- numbers (section 6)

  /** Longest run of digits. */
  function TakeDigits(s: string): (r: (string, string))
    ensures s == r.0 + r.1 && AllDigits(r.0)
    ensures r.1 != "" ==> !IsDigit(r.1[0])
  {
    if s == "" || !IsDigit(s[0]) then ("", s)
    else
      var (digits, rest) := TakeDigits(s[1..]);
      ([s[0]] + digits, rest)
  }

  predicate ValidWhole(digits: string) {
    digits != "" && AllDigits(digits) && (digits[0] == '0' ==> |digits| == 1)
  }

  predicate ValidNumber(n: Number) {
    && ValidWhole(n.whole)
    && AllDigits(n.fraction)
    && (n.exponent.Some? ==>
          && n.exponent.value.sign in ["", "+", "-"]
          && n.exponent.value.digits != ""
          && AllDigits(n.exponent.value.digits))
  }

  function ReadFraction(s: string): (r: Option<(string, string)>)
    ensures r.Some? ==> |r.value.1| <= |s|
  {
    if !StartsWith(s, '.') then Some(("", s))
    else
      var (digits, rest) := TakeDigits(s[1..]);
      if digits == "" then None else Some((digits, rest))
  }

  function ReadExponent(s: string): (r: Option<(Option<Exponent>, string)>)
    ensures r.Some? ==> |r.value.1| <= |s|
  {
    if !StartsWith(s, 'e') && !StartsWith(s, 'E') then Some((None, s))
    else
      var signed := StartsWith(s[1..], '+') || StartsWith(s[1..], '-');
      var sign := if signed then [s[1]] else "";
      var (digits, rest) := TakeDigits(if signed then s[2..] else s[1..]);
      if digits == "" then None else Some((Some(Exponent(sign, digits)), rest))
  }

  function ReadNumber(s: string): (r: Option<(Number, string)>)
    ensures r.Some? ==> |r.value.1| < |s|
  {
    var negative := StartsWith(s, '-');
    var (whole, afterWhole) := TakeDigits(if negative then s[1..] else s);
    if !ValidWhole(whole) then None
    else
      var fraction := ReadFraction(afterWhole);
      if fraction.None? then None
      else
        var exponent := ReadExponent(fraction.value.1);
        if exponent.None? then None
        else Some((Number(negative, whole, fraction.value.0, exponent.value.0), exponent.value.1))
  }

  // ---------------------------------------------------------------- values (sections 3 to 5)

  function ReadValue(text: string): (r: Option<(Value, string)>)
    ensures r.Some? ==> |r.value.1| < |text|
    decreases |text|, 0
  {
    var s := SkipSpace(text);
    if s == "" then None
    else if s[0] == '{' then
      var inner := SkipSpace(s[1..]);
      if StartsWith(inner, '}') then Some((JObject([]), inner[1..]))
      else
        var r := ReadMembers(inner);
        if r.None? then None else Some((JObject(r.value.0), r.value.1))
    else if s[0] == '[' then
      var inner := SkipSpace(s[1..]);
      if StartsWith(inner, ']') then Some((JArray([]), inner[1..]))
      else
        var r := ReadItems(inner);
        if r.None? then None else Some((JArray(r.value.0), r.value.1))
    else if s[0] == '"' then
      var r := ReadString(s[1..]);
      if r.None? then None else Some((JString(r.value.0), r.value.1))
    else if s[0] == '-' || IsDigit(s[0]) then
      var r := ReadNumber(s);
      if r.None? then None else Some((JNumber(r.value.0), r.value.1))
    else if "true" <= s then Some((JBool(true), s[4..]))
    else if "false" <= s then Some((JBool(false), s[5..]))
    else if "null" <= s then Some((JNull, s[4..]))
    else None
  }

  /** One or more items up to and including the closing bracket. */
  function ReadItems(s: string): (r: Option<(seq<Value>, string)>)
    ensures r.Some? ==> |r.value.1| < |s|
    decreases |s|, 1
  {
    var first := ReadValue(s);
    if first.None? then None
    else
      var after := SkipSpace(first.value.1);
      if StartsWith(after, ']') then Some(([first.value.0], after[1..]))
      else if StartsWith(after, ',') then
        var tail := ReadItems(after[1..]);
        if tail.None? then None else Some(([first.value.0] + tail.value.0, tail.value.1))
      else None
  }

  /** One or more members up to and including the closing brace. */
  function ReadMembers(s: string): (r: Option<(seq<(string, Value)>, string)>)
    ensures r.Some? ==> |r.value.1| < |s|
    decreases |s|, 1
  {
    var quoted := SkipSpace(s);
    if !StartsWith(quoted, '"') then None
    else
      var key := ReadString(quoted[1..]);
      if key.None? then None
      else
        var colon := SkipSpace(key.value.1);
        if !StartsWith(colon, ':') then None
        else
          var value := ReadValue(colon[1..]);
          if value.None? then None
          else
            var after := SkipSpace(value.value.1);
            var member := (key.value.0, value.value.0);
            if StartsWith(after, '}') then Some(([member], after[1..]))
            else if StartsWith(after, ',') then
              var tail := ReadMembers(after[1..]);
              if tail.None? then None else Some(([member] + tail.value.0, tail.value.1))
            else None
  }

  /** A whole JSON text: one value and nothing but white space behind it. */
  function Parse(text: string): Option<Value> {
    var r := ReadValue(text);
    if r.Some? && SkipSpace(r.value.1) == "" then Some(r.value.0) else None
  }

  // ---------------------------------------------------------------- spellings the compact writer does not use

  predicate Blank(s: string) { forall i | 0 <= i < |s| :: s[i] in " \t\n\r" }

  lemma {:induction false} SkipBlank(w: string, s: string)
    requires Blank(w)
    ensures SkipSpace(w + s) == SkipSpace(s)
  {
    if w == "" {
      assert w + s == s;
    } else {
      assert w[0] in " \t\n\r" && (w + s)[1..] == w[1..] + s;
      SkipBlank(w[1..], s);
    }
  }

  /** White space in front of a value is skipped, all of it and nothing else. */
  lemma BlankSkipped(w: string, s: string)
    requires Blank(w)
    ensures ReadValue(w + s) == ReadValue(s)
    ensures s == "" || s[0] !in " \t\n\r" ==> SkipSpace(w + s) == s
  {
    SkipBlank(w, s);
    SameSkipped(w + s, s);
  }

  lemma SameSkipped(a: string, b: string)
    requires SkipSpace(a) == SkipSpace(b)
    ensures ReadValue(a) == ReadValue(b)
  {}

  /** The escapes by a letter. */
  lemma EscapesMean(tail: string)
    ensures ReadEscape("\"" + tail) == Some(('"', tail)) && ReadEscape("\\" + tail) == Some(('\\', tail))
    ensures ReadEscape("/" + tail) == Some(('/', tail)) && ReadEscape("b" + tail) == Some((8 as char, tail))
    ensures ReadEscape("f" + tail) == Some((12 as char, tail)) && ReadEscape("n" + tail) == Some((10 as char, tail))
    ensures ReadEscape("r" + tail) == Some((13 as char, tail)) && ReadEscape("t" + tail) == Some((9 as char, tail))
  {
    forall c: char
      ensures ([c] + tail)[1..] == tail
    {}
  }

  /** No leading zero. */
  lemma LeadingZeroRefused(digit: char, rest: string)
    requires IsDigit(digit)
    ensures ReadNumber("0" + [digit] + rest).None? && ReadNumber("-0" + [digit] + rest).None?
  {
    var text := "0" + [digit] + rest;
    ZeroTaken(digit, rest);
    assert ("-0" + [digit] + rest)[1..] == text;
  }

  lemma ZeroTaken(digit: char, rest: string)
    requires IsDigit(digit)
    ensures !ValidWhole(TakeDigits("0" + [digit] + rest).0)
  {
    var text := "0" + [digit] + rest;
    assert text[1..] == [digit] + rest;
  }

  /** A digit behind every point, exponent mark and sign. */
  lemma DigitsRequired(mark: char, sign: char, rest: string)
    requires (rest == "" || !IsDigit(rest[0])) && mark in "eE" && sign in "+-"
    ensures ReadFraction("." + rest).None? && ReadExponent([mark, sign] + rest).None?
    ensures !StartsWith(rest, '+') && !StartsWith(rest, '-') ==> ReadExponent([mark] + rest).None?
  {
    assert ("." + rest)[1..] == rest && ([mark] + rest)[1..] == rest;
    var signed := [mark, sign] + rest;
    assert signed[1] == sign && signed[1..][0] == sign && signed[2..] == rest;
  }

  /** Hexadecimal digits, in either case. */
  lemma HexMeans(n: nat)
    requires n < 16
    ensures HexValue("0123456789abcdef"[n]) == HexValue("0123456789ABCDEF"[n]) == Some(n)
  {}

  /** Two escaped surrogate halves are the character whose halves they are. */
  lemma PairMeans(c: char, high: string, low: string, tail: string)
    requires c as int >= 0x1_0000 && |high| == |low| == 4
    requires HexUnit(high) == Some(0xD800 + (c as int - 0x1_0000) / 0x400)
    requires HexUnit(low) == Some(0xDC00 + (c as int - 0x1_0000) % 0x400)
    ensures ReadEscape("u" + high + "\\u" + low + tail) == Some((c, tail))
  {
    var s := "u" + high + "\\u" + low + tail;
    assert s[1..5] == high && s[7..11] == low && s[11..] == tail;
  }
}
