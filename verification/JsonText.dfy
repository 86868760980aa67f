/** The compact JSON text with the publisher's escapes, and the proof that the reader undoes it. */
module JsonText {
  import opened Json
  import opened Options

  // ---------------------------------------------------------------- strings

  function HexDigit(n: nat): (c: char)
    requires n < 16
    ensures if n < 10 then c as int == '0' as int + n else c as int == 'a' as int + n - 10
  {
    "0123456789abcdef"[n]
  }

  function EscapeChar(c: char): string {
    if c == '"' then "\\\""
    else if c == '\\' then "\\\\"
    else if c == '\n' then "\\n"
    else if c == '\r' then "\\r"
    else if c == '\t' then "\\t"
    else if c < ' ' then "\\u00" + [HexDigit((c as int) / 16), HexDigit((c as int) % 16)]
    else [c]
  }

  function Escape(s: string): string {
    if s == "" then "" else EscapeChar(s[0]) + Escape(s[1..])
  }

  lemma {:induction false} EscapeSnoc(s: string, c: char)
    ensures Escape(s + [c]) == Escape(s) + EscapeChar(c)
  {
    if s == "" {
      assert s + [c] == [c];
    } else {
      assert (s + [c])[1..] == s[1..] + [c];
      EscapeSnoc(s[1..], c);
    }
  }

  function Prepend(c: char, r: Option<(string, string)>): Option<(string, string)> {
    if r.None? then None else Some(([c] + r.value.0, r.value.1))
  }

  /** One escaped character reads back as itself and stops where it should. */
  lemma ReadEscapedChar(c: char, tail: string)
    ensures ReadString(EscapeChar(c) + tail) == Prepend(c, ReadString(tail))
  {
    var text := EscapeChar(c) + tail;
    if c == '"' || c == '\\' || c == '\n' || c == '\r' || c == '\t' {
      assert text[1..][1..] == tail;
    } else if c < ' ' {
      ReadControlChar(c, tail);
    } else {
      assert text[1..] == tail;
    }
  }

  lemma ReadControlChar(c: char, tail: string)
    requires c < ' '
    ensures ReadString("\\u00" + [HexDigit((c as int) / 16), HexDigit((c as int) % 16)] + tail)
         == Prepend(c, ReadString(tail))
  {
    var hi, lo := (c as int) / 16, (c as int) % 16;
    var text := "\\u00" + [HexDigit(hi), HexDigit(lo)] + tail;
    HexDigitValue(hi);
    HexDigitValue(lo);
    var digits := text[1..][1..5];
    assert digits == ['0', '0', HexDigit(hi), HexDigit(lo)];
    assert HexUnit(digits) == Some(16 * hi + lo);
    assert text[1..][5..] == tail;
    assert ReadEscape(text[1..]) == Some((c, tail));
  }

  lemma HexDigitValue(n: nat)
    requires n < 16
    ensures HexValue(HexDigit(n)) == Some(n)
  {}

  /** An escaped string never closes early and reads back unchanged, whatever its characters. */
  lemma {:induction false} ReadEscaped(s: string, rest: string)
    ensures ReadString(Escape(s) + "\"" + rest) == Some((s, rest))
  {
    if s == "" {
      assert Escape(s) + "\"" + rest == "\"" + rest;
    } else {
      var tail := Escape(s[1..]) + "\"" + rest;
      ReadEscaped(s[1..], rest);
      ReadEscapedChar(s[0], tail);
      assert Escape(s) + "\"" + rest == EscapeChar(s[0]) + tail;
      assert s == [s[0]] + s[1..];
    }
  }

  // ---------------------------------------------------------------- numbers

  function FractionText(fraction: string): string {
    if fraction == "" then "" else "." + fraction
  }

  function ExponentText(e: Option<Exponent>): string {
    if e.None? then "" else "e" + (e.value.sign + e.value.digits)
  }

  function NumberText(n: Number): string {
    (if n.negative then "-" else "") + (n.whole + (FractionText(n.fraction) + ExponentText(n.exponent)))
  }

  /** What may stand behind a number for it to end there. */
  predicate EndsNumber(rest: string) {
    rest == "" || !(IsDigit(rest[0]) || rest[0] in ".eE")
  }

  lemma {:induction false} TakeAllDigits(digits: string, rest: string)
    requires AllDigits(digits) && (rest == "" || !IsDigit(rest[0]))
    ensures TakeDigits(digits + rest) == (digits, rest)
  {
    if digits == "" {
      assert digits + rest == rest;
    } else {
      TakeAllDigits(digits[1..], rest);
      assert (digits + rest)[1..] == digits[1..] + rest;
      assert digits == [digits[0]] + digits[1..];
    }
  }

  lemma ReadExponentText(n: Number, rest: string)
    requires ValidNumber(n) && EndsNumber(rest)
    ensures ReadExponent(ExponentText(n.exponent) + rest) == Some((n.exponent, rest))
  {
    if n.exponent.Some? {
      var e := n.exponent.value;
      Assoc("e", e.sign + e.digits, rest);
      Assoc(e.sign, e.digits, rest);
      TakeAllDigits(e.digits, rest);
      ReadSigned(e, rest);
    } else {
      assert "" + rest == rest;
    }
  }

  lemma ReadSigned(e: Exponent, rest: string)
    requires e.sign in ["", "+", "-"] && e.digits != "" && AllDigits(e.digits)
    requires TakeDigits(e.digits + rest) == (e.digits, rest)
    ensures ReadExponent("e" + (e.sign + (e.digits + rest))) == Some((Some(e), rest))
  {
    var text, tail := "e" + (e.sign + (e.digits + rest)), e.digits + rest;
    if e.sign == "" {
      assert text[1..] == tail && text[1] == e.digits[0];
    } else {
      assert text[1..] == e.sign + tail && text[2..] == tail;
    }
  }

  lemma ReadFractionText(fraction: string, rest: string)
    requires AllDigits(fraction) && (rest == "" || !(IsDigit(rest[0]) || rest[0] == '.'))
    ensures ReadFraction(FractionText(fraction) + rest) == Some((fraction, rest))
  {
    if fraction == "" {
      assert "" + rest == rest;
    } else {
      TakeAllDigits(fraction, rest);
      assert ("." + fraction + rest)[1..] == fraction + rest;
    }
  }

  lemma ReadNumberText(n: Number, rest: string)
    requires ValidNumber(n) && EndsNumber(rest)
    ensures ReadNumber(NumberText(n) + rest) == Some((n, rest))
  {
    var afterFraction := ExponentText(n.exponent) + rest;
    var afterWhole := FractionText(n.fraction) + afterFraction;
    ReadExponentText(n, rest);
    assert n.exponent.None? ==> afterFraction == rest;
    ReadFractionText(n.fraction, afterFraction);
    assert n.fraction == "" ==> afterWhole == afterFraction;
    TakeAllDigits(n.whole, afterWhole);
    SignSplit(n, rest);
  }

  lemma SignSplit(n: Number, rest: string)
    requires ValidNumber(n)
    ensures var text, digits := NumberText(n) + rest,
                                n.whole + (FractionText(n.fraction) + (ExponentText(n.exponent) + rest));
      StartsWith(text, '-') == n.negative && (if n.negative then text[1..] else text) == digits
  {
    var tail := FractionText(n.fraction) + ExponentText(n.exponent);
    var digits := n.whole + tail + rest;
    Assoc(FractionText(n.fraction), ExponentText(n.exponent), rest);
    Assoc(n.whole, tail, rest);
    if n.negative {
      Assoc("-", n.whole + tail, rest);
    } else {
      assert "" + (n.whole + tail) == n.whole + tail;
      assert digits[0] == n.whole[0];
    }
  }

  lemma Assoc(a: string, b: string, c: string)
    ensures a + b + c == a + (b + c)
  {}

  // ---------------------------------------------------------------- values

  function Text(v: Value): string
    decreases v, 0
  {
    match v
    case JNull => "null"
    case JBool(b) => if b then "true" else "false"
    case JNumber(n) => NumberText(n)
    case JString(s) => "\"" + Escape(s) + "\""
    case JArray(items) => "[" + ItemsText(items) + "]"
    case JObject(members) => "{" + MembersText(members) + "}"
  }

  function ItemsText(items: seq<Value>): string
    decreases items, 1
  {
    if items == [] then ""
    else Text(items[0]) + (if |items| == 1 then "" else "," + ItemsText(items[1..]))
  }

  function MemberText(m: (string, Value)): string
    decreases m, 1
  {
    "\"" + Escape(m.0) + "\":" + Text(m.1)
  }

  function MembersText(members: seq<(string, Value)>): string
    decreases members, 2
  {
    if members == [] then ""
    else MemberText(members[0]) + (if |members| == 1 then "" else "," + MembersText(members[1..]))
  }

  predicate ValidValue(v: Value)
    decreases v
  {
    match v
    case JNumber(n) => ValidNumber(n)
    case JArray(items) => forall i | 0 <= i < |items| :: ValidValue(items[i])
    case JObject(members) => forall i | 0 <= i < |members| :: ValidValue(members[i].1)
    case _ => true
  }

  /** The first character of a value's text: it is not white space and tells the kind of value. */
  lemma TextStarts(v: Value)
    requires ValidValue(v)
    ensures Text(v) != "" && !IsSpace(Text(v)[0]) && Text(v)[0] !in "]}"
    ensures v.JNumber? <==> Text(v)[0] == '-' || IsDigit(Text(v)[0])
  {}

  lemma {:induction false} ItemsSnoc(items: seq<Value>, v: Value)
    ensures ItemsText(items + [v]) == ItemsText(items) + (if items == [] then Text(v) else "," + Text(v))
  {
    if items == [] {
      assert items + [v] == [v];
      assert Text(v) + "" == Text(v) == "" + Text(v);
    } else {
      assert (items + [v])[1..] == items[1..] + [v];
      ItemsSnoc(items[1..], v);
      ItemsSplit(items, "," + Text(v));
      if |items| == 1 {
        assert "" + Text(v) == Text(v);
      }
    }
  }

  lemma {:induction false} MembersSnoc(members: seq<(string, Value)>, m: (string, Value))
    ensures MembersText(members + [m])
         == MembersText(members) + (if members == [] then MemberText(m) else "," + MemberText(m))
  {
    if members == [] {
      assert members + [m] == [m];
      assert MemberText(m) + "" == MemberText(m) == "" + MemberText(m);
    } else {
      assert (members + [m])[1..] == members[1..] + [m];
      MembersSnoc(members[1..], m);
      MembersSplit(members, "," + MemberText(m));
      if |members| == 1 {
        assert "" + MemberText(m) == MemberText(m);
      }
    }
  }

  /** The reader undoes the writer: every value reads back unchanged and nothing behind it is touched. */
  lemma {:induction false} ReadBack(v: Value, rest: string)
    requires ValidValue(v) && (v.JNumber? ==> EndsNumber(rest))
    ensures ReadValue(Text(v) + rest) == Some((v, rest))
    decreases v, 0
  {
    match v
    case JNull => ReadKeyword(v, rest);
    case JBool(_) => ReadKeyword(v, rest);
    case JNumber(n) =>
      ReadNumberValue(n, rest);
    case JString(s) =>
      ReadStringValue(s, rest);
    case JArray(items) =>
      if items != [] {
        ReadBackItems(items, rest);
      }
      ReadArray(items, rest);
    case JObject(members) =>
      if members != [] {
        ReadBackMembers(members, rest);
      }
      ReadObject(members, rest);
  }

  lemma ReadKeyword(v: Value, rest: string)
    requires v.JNull? || v.JBool?
    ensures ReadValue(Text(v) + rest) == Some((v, rest))
  {
    var text := Text(v) + rest;
    assert Text(v) <= text && text[|Text(v)|..] == rest;
    assert text[0] == Text(v)[0];
  }

  lemma ReadNumberValue(n: Number, rest: string)
    requires ValidNumber(n) && EndsNumber(rest)
    ensures ReadValue(Text(JNumber(n)) + rest) == Some((JNumber(n), rest))
  {
    ReadNumberText(n, rest);
    TextStarts(JNumber(n));
    assert (NumberText(n) + rest)[0] == NumberText(n)[0];
  }

  lemma ReadStringValue(s: string, rest: string)
    ensures ReadValue(Text(JString(s)) + rest) == Some((JString(s), rest))
  {
    ReadEscaped(s, rest);
    QuoteRegroup(Escape(s), rest);
    var text := "\"" + (Escape(s) + "\"" + rest);
    assert SkipSpace(text) == text && text[1..] == Escape(s) + "\"" + rest;
  }

  lemma QuoteRegroup(e: string, rest: string)
    ensures ("\"" + e + "\"") + rest == "\"" + (e + "\"" + rest)
  {}

  lemma ReadArray(items: seq<Value>, rest: string)
    requires forall i | 0 <= i < |items| :: ValidValue(items[i])
    requires items != [] ==> ReadItems(ItemsText(items) + ("]" + rest)) == Some((items, rest))
    ensures ReadValue(Text(JArray(items)) + rest) == Some((JArray(items), rest))
  {
    Enclosed("[", ItemsText(items), "]", rest);
    if items != [] {
      ItemsStart(items);
    }
    BracketOpens("[" + (ItemsText(items) + ("]" + rest)), items, rest);
  }

  lemma ItemsStart(items: seq<Value>)
    requires items != [] && ValidValue(items[0])
    ensures var t := ItemsText(items); t != "" && !IsSpace(t[0]) && t[0] != ']'
  {
    TextStarts(items[0]);
  }

  /** Text between one opening and one closing character, with more behind it. */
  lemma Enclosed(open: string, middle: string, close: string, rest: string)
    requires |open| == 1
    ensures (open + middle + close) + rest == open + (middle + (close + rest))
    ensures (open + (middle + (close + rest)))[1..] == middle + (close + rest)
    ensures middle != "" ==> (middle + (close + rest))[0] == middle[0]
    ensures middle == "" ==> middle + (close + rest) == close + rest
  {}

  lemma BracketOpens(text: string, items: seq<Value>, rest: string)
    requires StartsWith(text, '[')
    requires if items == [] then text[1..] == "]" + rest
             else text[1..] != "" && !IsSpace(text[1]) && text[1] != ']' && ReadItems(text[1..]) == Some((items, rest))
    ensures ReadValue(text) == Some((JArray(items), rest))
  {
    assert SkipSpace(text) == text && SkipSpace(text[1..]) == text[1..];
    assert ("]" + rest)[1..] == rest;
  }

  lemma ReadObject(members: seq<(string, Value)>, rest: string)
    requires members != [] ==> ReadMembers(MembersText(members) + ("}" + rest)) == Some((members, rest))
    ensures ReadValue(Text(JObject(members)) + rest) == Some((JObject(members), rest))
  {
    Enclosed("{", MembersText(members), "}", rest);
    if members != [] {
      assert MembersText(members)[0] == '"';
    }
    BraceOpens("{" + (MembersText(members) + ("}" + rest)), members, rest);
  }

  lemma BraceOpens(text: string, members: seq<(string, Value)>, rest: string)
    requires StartsWith(text, '{')
    requires if members == [] then text[1..] == "}" + rest
             else StartsWith(text[1..], '"') && ReadMembers(text[1..]) == Some((members, rest))
    ensures ReadValue(text) == Some((JObject(members), rest))
  {
    assert SkipSpace(text) == text && SkipSpace(text[1..]) == text[1..];
    assert ("}" + rest)[1..] == rest;
  }

  /** One item and whatever follows it: a closing bracket, or a comma and more items. */
  lemma {:induction false} ReadBackItem(v: Value, close: string, more: string)
    requires ValidValue(v)
    ensures ReadItems(Text(v) + ("]" + close)) == Some(([v], close))
    ensures ReadItems(Text(v) + ("," + more))
         == (var r := ReadItems(more); if r.None? then None else Some(([v] + r.value.0, r.value.1)))
    decreases v, 1
  {
    ReadBack(v, "]" + close);
    ReadBack(v, "," + more);
  }

  lemma ItemsSplit(items: seq<Value>, tail: string)
    requires items != []
    ensures ItemsText(items) + tail
         == Text(items[0]) + (if |items| == 1 then tail else "," + (ItemsText(items[1..]) + tail))
  {
    if |items| == 1 {
      assert Text(items[0]) + "" == Text(items[0]);
    } else {
      Assoc(Text(items[0]), "," + ItemsText(items[1..]), tail);
      Assoc(",", ItemsText(items[1..]), tail);
    }
  }

  lemma {:induction false} ReadBackItems(items: seq<Value>, rest: string)
    requires items != [] && forall i | 0 <= i < |items| :: ValidValue(items[i])
    ensures ReadItems(ItemsText(items) + ("]" + rest)) == Some((items, rest))
    decreases items, 2
  {
    ReadBackItem(items[0], rest, ItemsText(items[1..]) + ("]" + rest));
    ItemsSplit(items, "]" + rest);
    if |items| == 1 {
      assert items == [items[0]];
    } else {
      assert items == [items[0]] + items[1..];
      ReadBackItems(items[1..], rest);
    }
  }

  /** One member and whatever follows it: a closing brace, or a comma and more members. */
  lemma {:induction false} ReadBackMember(m: (string, Value), close: string, more: string)
    requires ValidValue(m.1)
    ensures ReadMembers(MemberText(m) + ("}" + close)) == Some(([m], close))
    ensures ReadMembers(MemberText(m) + ("," + more))
         == (var r := ReadMembers(more); if r.None? then None else Some(([m] + r.value.0, r.value.1)))
    decreases m, 1
  {
    ReadBack(m.1, "}" + close);
    ReadBack(m.1, "," + more);
    ReadMemberThen(m, "}" + close);
    ReadMemberThen(m, "," + more);
  }

  lemma ReadMemberThen(m: (string, Value), rest: string)
    requires ReadValue(Text(m.1) + rest) == Some((m.1, rest)) && rest != "" && rest[0] in "},"
    ensures ReadMembers(MemberText(m) + rest)
         == if rest[0] == '}' then Some(([m], rest[1..]))
            else (var r := ReadMembers(rest[1..]); if r.None? then None else Some(([m] + r.value.0, r.value.1)))
  {
    MemberKey(m, rest);
    var value := Text(m.1) + rest;
    assert (":" + value)[1..] == value;
    AfterKey(MemberText(m) + rest, m, ":" + value, rest);
  }

  lemma AfterKey(text: string, m: (string, Value), colon: string, rest: string)
    requires StartsWith(text, '"') && ReadString(text[1..]) == Some((m.0, colon))
    requires StartsWith(colon, ':') && ReadValue(colon[1..]) == Some((m.1, rest))
    requires rest != "" && rest[0] in "},"
    ensures ReadMembers(text)
         == if rest[0] == '}' then Some(([m], rest[1..]))
            else (var r := ReadMembers(rest[1..]); if r.None? then None else Some(([m] + r.value.0, r.value.1)))
  {
    assert SkipSpace(text) == text && SkipSpace(colon) == colon && SkipSpace(rest) == rest;
    assert (m.0, m.1) == m;
  }

  lemma MemberKey(m: (string, Value), rest: string)
    ensures var text := MemberText(m) + rest;
      && StartsWith(text, '"')
      && ReadString(text[1..]) == Some((m.0, ":" + (Text(m.1) + rest)))
  {
    var tail := ":" + (Text(m.1) + rest);
    ReadEscaped(m.0, tail);
    KeyRegroup(Escape(m.0), Text(m.1), rest);
  }

  lemma KeyRegroup(key: string, value: string, rest: string)
    ensures ("\"" + key + "\":" + value) + rest == "\"" + (key + "\"" + (":" + (value + rest)))
  {}

  lemma MembersSplit(members: seq<(string, Value)>, tail: string)
    requires members != []
    ensures MembersText(members) + tail
         == MemberText(members[0]) + (if |members| == 1 then tail else "," + (MembersText(members[1..]) + tail))
  {
    if |members| == 1 {
      assert MemberText(members[0]) + "" == MemberText(members[0]);
    } else {
      Assoc(MemberText(members[0]), "," + MembersText(members[1..]), tail);
      Assoc(",", MembersText(members[1..]), tail);
    }
  }

  lemma {:induction false} ReadBackMembers(members: seq<(string, Value)>, rest: string)
    requires members != [] && forall i | 0 <= i < |members| :: ValidValue(members[i].1)
    ensures ReadMembers(MembersText(members) + ("}" + rest)) == Some((members, rest))
    decreases members, 2
  {
    ReadBackMember(members[0], rest, MembersText(members[1..]) + ("}" + rest));
    MembersSplit(members, "}" + rest);
    if |members| == 1 {
      assert members == [members[0]];
    } else {
      assert members == [members[0]] + members[1..];
      ReadBackMembers(members[1..], rest);
    }
  }

  /** Members in front of a text that the reader rejects do not save it. */
  lemma {:induction false} RejectedAfterMembers(members: seq<(string, Value)>, tail: string)
    requires members != [] && forall i | 0 <= i < |members| :: ValidValue(members[i].1)
    requires ReadMembers(tail).None?
    ensures ReadMembers(MembersText(members) + ("," + tail)).None?
  {
    MembersSplit(members, "," + tail);
    if |members| == 1 {
      ReadBackMember(members[0], "", tail);
    } else {
      ReadBackMember(members[0], "", MembersText(members[1..]) + ("," + tail));
      RejectedAfterMembers(members[1..], tail);
    }
  }

  /** The same for the items of an array. */
  lemma {:induction false} RejectedAfterItems(items: seq<Value>, tail: string)
    requires items != [] && forall i | 0 <= i < |items| :: ValidValue(items[i])
    requires ReadItems(tail).None?
    ensures ReadItems(ItemsText(items) + ("," + tail)).None?
  {
    ItemsSplit(items, "," + tail);
    if |items| == 1 {
      ReadBackItem(items[0], "", tail);
    } else {
      ReadBackItem(items[0], "", ItemsText(items[1..]) + ("," + tail));
      RejectedAfterItems(items[1..], tail);
    }
  }

  /** Parsing the text of a value gives the value. */
  lemma ParseText(v: Value)
    requires ValidValue(v)
    ensures Parse(Text(v)) == Some(v)
  {
    ReadBack(v, "");
    assert Text(v) + "" == Text(v);
  }
}
