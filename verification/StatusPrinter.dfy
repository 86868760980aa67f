/** The publisher's hand-built JSON buffer and what an aggregator reads from it. */
module StatusPrinter {
  import opened Json
  import opened JsonText
  import opened Messages
  import opened Options
  import opened Statuses
  import opened Utf8

  /** A double, with its shortest decimal text as a token. */
  datatype Double = Finite(num: Number) | Infinite(negative: bool) | NotANumber(negative: bool)

  /** A status whose numbers are ready to print. */
  type Printable = Status<Double>

  type Pair = KeyValue<Double>

  predicate IsFinite(d: Double) { d.Finite? && ValidNumber(d.num) }

  /** Tokens are valid whenever a double is finite. */
  predicate WellFormed(status: Printable, stamp: Double) {
    && (stamp.Finite? ==> ValidNumber(stamp.num))
    && forall i | 0 <= i < |status.values| ::
         status.values[i].value.Finite? ==> ValidNumber(status.values[i].value.num)
  }

  predicate AllFinite(values: seq<Pair>) {
    forall i | 0 <= i < |values| :: IsFinite(values[i].value)
  }

  // ---------------------------------------------------------------- numbers

  function DoubleText(d: Double): string {
    match d
    case Finite(n) => NumberText(n)
    case Infinite(negative) => if negative then "-inf" else "inf"
    case NotANumber(negative) => if negative then "-nan" else "nan"
  }

  function NatDigits(n: nat): (s: string)
    ensures ValidWhole(s) && DigitsValue(s) == n && (n > 0 ==> s[0] != '0')
  {
    if n < 10 then
      var s := [('0' as int + n) as char];
      assert DigitsValue(s[..0]) == 0;
      s
    else
      var t := NatDigits(n / 10);
      var s := t + [('0' as int + n % 10) as char];
      assert s[..|s| - 1] == t;
      s
  }

  function IntNumber(n: int): (r: Number)
    ensures ValidNumber(r)
  {
    Number(n < 0, NatDigits(if n < 0 then -n else n), "", None)
  }

  /** std::to_string. */
  function IntText(n: int): string {
    if n < 0 then "-" + NatDigits(-n) else NatDigits(n)
  }

  lemma IntTextIsToken(n: int)
    ensures NumberText(IntNumber(n)) == IntText(n) && NumberValue(IntNumber(n)) == n as real
  {
    var digits := IntNumber(n).whole;
    assert NumberText(IntNumber(n)) == (if n < 0 then "-" else "") + (digits + ("" + ""));
    EmptyTails(digits);
    WholeValue(IntNumber(n));
  }

  lemma EmptyTails(s: string)
    ensures s + ("" + "") == s && "" + s == s
  {}

  lemma WholeValue(n: Number)
    requires ValidNumber(n) && n.fraction == "" && n.exponent.None?
    ensures NumberValue(n) == if n.negative then -(DigitsValue(n.whole) as real) else DigitsValue(n.whole) as real
  {}

  /** The reader rejects the tokens printed for infinities and not-a-number. */
  lemma NonFiniteRejected(d: Double, rest: string)
    requires !d.Finite?
    ensures ReadValue(DoubleText(d) + rest).None?
  {
    var text := DoubleText(d) + rest;
    if d.Infinite? && d.negative {
      assert text[..4] == "-inf" && text[1..][0] == 'i';
    } else if d.Infinite? {
      assert text[..3] == "inf";
    } else if d.negative {
      assert text[..4] == "-nan" && text[1..][0] == 'n';
    } else {
      assert text[..3] == "nan" && text[0] == 'n' && text[1] == 'a';
    }
  }

  // ---------------------------------------------------------------- the buffer

  /** The document the buffer is meant to say. */
  function Document(status: Printable, stamp: Number): Value
    requires AllFinite(status.values)
  {
    JObject(Front(status) + [("stamp", JNumber(stamp))] + Back(status) + [("values", JArray(Pairs(status.values)))])
  }

  function Front(status: Printable): seq<(string, Value)> {
    [("v", JNumber(IntNumber(1))), ("node", JString(status.name)), ("hw_id", JString(status.hardwareId))]
  }

  function Back(status: Printable): seq<(string, Value)> {
    [("level", JNumber(IntNumber(status.level))), ("msg", JString(status.msg))]
  }

  function PairOf(kv: Pair): Value
    requires kv.value.Finite?
  {
    JArray([JString(kv.key), JNumber(kv.value.num)])
  }

  function Pairs(values: seq<Pair>): (r: seq<Value>)
    requires AllFinite(values)
    ensures |r| == |values| && forall i | 0 <= i < |r| :: r[i] == PairOf(values[i])
  {
    seq(|values|, i requires 0 <= i < |values| => PairOf(values[i]))
  }

  function PairText(kv: Pair): string {
    "[\"" + Escape(kv.key) + "\"," + DoubleText(kv.value) + "]"
  }

  function PairsText(values: seq<Pair>): string {
    if values == [] then ""
    else if |values| == 1 then PairText(values[0])
    else PairsText(values[..|values| - 1]) + ("," + PairText(values[|values| - 1]))
  }

  function FrontText(status: Printable): string {
    "{\"v\":1,\"node\":\"" + Escape(status.name) + "\",\"hw_id\":\"" + Escape(status.hardwareId) + "\",\"stamp\":"
  }

  function BackText(status: Printable): string {
    ",\"level\":" + IntText(status.level) + ",\"msg\":\"" + Escape(status.msg) + "\",\"values\":["
  }

  predicate Plain(s: string) {
    forall i | 0 <= i < |s| :: EscapeChar(s[i]) == [s[i]]
  }

  lemma {:induction false} PlainEscape(s: string)
    requires Plain(s)
    ensures Escape(s) == s
  {
    if s == "" {
    } else {
      PlainEscape(s[1..]);
      assert s == [s[0]] + s[1..];
    }
  }

  /** A further string member: the pieces the publisher appends around an escaped string. */
  lemma StringMember(members: seq<(string, Value)>, key: string, value: string)
    requires members != [] && Plain(key)
    ensures MembersText(members + [(key, JString(value))])
         == MembersText(members) + (",\"" + key + "\":\"") + Escape(value) + "\""
  {
    PlainEscape(key);
    MembersSnoc(members, (key, JString(value)));
    MemberRegroup(MembersText(members), key, Escape(value));
  }

  lemma MemberRegroup(m: string, k: string, e: string)
    ensures m + ("," + ("\"" + k + "\":" + ("\"" + e + "\""))) == m + (",\"" + k + "\":\"") + e + "\""
  {}

  lemma NumberMember(key: string, value: Number)
    requires Plain(key)
    ensures MembersText([(key, JNumber(value))]) == "\"" + key + "\":" + NumberText(value)
  {
    PlainEscape(key);
    var m := [(key, JNumber(value))];
    assert MembersText(m) == MemberText(m[0]) + "";
  }

  lemma FrontLiterals()
    ensures Plain("v") && Plain("node") && Plain("hw_id")
    ensures "{\"v\":1,\"node\":\"" == "{" + "\"v\":1" + ",\"node\":\"" && "\",\"hw_id\":\"" == "\"" + ",\"hw_id\":\""
    ensures ",\"" + "node" + "\":\"" == ",\"node\":\"" && ",\"" + "hw_id" + "\":\"" == ",\"hw_id\":\""
    ensures "\"" + "v" + "\":" + "1" == "\"v\":1"
  {}

  /** The literal pieces around the strings are exactly the member syntax. */
  lemma FrontIsMembers(status: Printable)
    ensures FrontText(status) == "{" + (MembersText(Front(status)) + ",\"stamp\":")
  {
    FrontLiterals();
    IntTextIsToken(1);
    NumberMember("v", IntNumber(1));
    var v, node := ("v", JNumber(IntNumber(1))), ("node", JString(status.name));
    var hwId := ("hw_id", JString(status.hardwareId));
    StringMember([v], "node", status.name);
    StringMember([v] + [node], "hw_id", status.hardwareId);
    assert Front(status) == [v] + [node] + [hwId];
    FrontRegroup("\"v\":1", ",\"node\":\"", Escape(status.name), ",\"hw_id\":\"", Escape(status.hardwareId));
  }

  lemma FrontRegroup(a: string, b: string, x: string, c: string, y: string)
    ensures ("{" + a + b) + x + ("\"" + c) + y + "\",\"stamp\":"
         == "{" + ((a + b + x + "\"" + c + y + "\"") + ",\"stamp\":")
  {}

  lemma BackLiterals()
    ensures Plain("level") && Plain("msg")
    ensures ",\"level\":" == "," + "\"level\":" && "\"" + "level" + "\":" == "\"level\":"
    ensures ",\"" + "msg" + "\":\"" == ",\"msg\":\""
  {}

  lemma BackIsMembers(status: Printable)
    ensures BackText(status) == "," + (MembersText(Back(status)) + ",\"values\":[")
  {
    BackLiterals();
    IntTextIsToken(status.level);
    NumberMember("level", IntNumber(status.level));
    var level, msg := ("level", JNumber(IntNumber(status.level))), ("msg", JString(status.msg));
    StringMember([level], "msg", status.msg);
    assert Back(status) == [level] + [msg];
    BackRegroup("\"level\":", IntText(status.level), ",\"msg\":\"", Escape(status.msg));
  }

  lemma BackRegroup(a: string, x: string, b: string, y: string)
    ensures ("," + a) + x + b + y + "\",\"values\":[" == "," + ((a + x + b + y + "\"") + ",\"values\":[")
  {}

  lemma PairIsItem(kv: Pair)
    requires IsFinite(kv.value)
    ensures PairText(kv) == Text(PairOf(kv))
  {
    var key, number := JString(kv.key), JNumber(kv.value.num);
    assert [key, number][1..] == [number];
    assert ItemsText([number]) == Text(number) + "";
    assert ItemsText([key, number]) == Text(key) + ("," + ItemsText([number]));
    assert Text(PairOf(kv)) == "[" + ItemsText([key, number]) + "]";
    PairRegroup(Escape(kv.key), NumberText(kv.value.num));
  }

  lemma PairRegroup(x: string, y: string)
    ensures "[\"" + x + "\"," + y + "]" == "[" + (("\"" + x + "\"") + ("," + (y + ""))) + "]"
  {}

  lemma {:induction false} PairsAreItems(values: seq<Pair>)
    requires AllFinite(values)
    ensures PairsText(values) == ItemsText(Pairs(values))
  {
    if values == [] {
    } else {
      var init, last := values[..|values| - 1], values[|values| - 1];
      PairsAreItems(init);
      PairIsItem(last);
      PairsEnd(values);
      ItemsSnoc(Pairs(init), PairOf(last));
      if init == [] {
        assert "" + PairText(last) == PairText(last);
      }
    }
  }

  lemma PairsEnd(values: seq<Pair>)
    requires AllFinite(values) && values != []
    ensures Pairs(values) == Pairs(values[..|values| - 1]) + [PairOf(values[|values| - 1])]
  {}

  function StatusText(status: Printable, stamp: Double): string {
    FrontText(status) + DoubleText(stamp) + BackText(status) + PairsText(status.values) + "]}"
  }

  lemma {:induction false} MembersConcat(a: seq<(string, Value)>, b: seq<(string, Value)>)
    requires a != [] && b != []
    ensures MembersText(a + b) == MembersText(a) + ("," + MembersText(b))
  {
    var init, last := b[..|b| - 1], b[|b| - 1];
    assert b == init + [last] && a + b == (a + init) + [last];
    MembersSnoc(a + init, last);
    MembersSnoc(init, last);
    if init == [] {
      assert a + init == a;
    } else {
      MembersConcat(a, init);
      ListRegroup(MembersText(a), MembersText(init), MemberText(last));
    }
  }

  lemma ListRegroup(x: string, y: string, z: string)
    ensures x + ("," + y) + ("," + z) == x + ("," + (y + ("," + z)))
  {}

  function StampMember(stamp: Number): seq<(string, Value)> { [("stamp", JNumber(stamp))] }

  function ValuesMember(values: seq<Pair>): seq<(string, Value)>
    requires AllFinite(values)
  {
    [("values", JArray(Pairs(values)))]
  }

  lemma StampLiterals()
    ensures Plain("stamp") && "\"" + "stamp" + "\":" == "\"stamp\":"
  {}

  lemma ValuesLiterals()
    ensures Plain("values") && "\"" + "values" + "\":" == "\"values\":"
  {}

  lemma StampText(stamp: Number)
    ensures MembersText(StampMember(stamp)) == "\"stamp\":" + NumberText(stamp)
  {
    StampLiterals();
    NumberMember("stamp", stamp);
  }

  lemma ValuesText(values: seq<Pair>)
    requires AllFinite(values)
    ensures MembersText(ValuesMember(values)) == "\"values\":[" + PairsText(values) + "]"
  {
    ValuesLiterals();
    PlainEscape("values");
    PairsAreItems(values);
    var member := ValuesMember(values)[0];
    assert MembersText(ValuesMember(values)) == MemberText(member) + "" == MemberText(member);
    ValuesRegroup(PairsText(values));
  }

  lemma ValuesRegroup(items: string)
    ensures "\"" + "values" + "\":" + ("[" + items + "]") == "\"values\":[" + items + "]"
  {}

  /** With finite numbers the buffer is the compact text of the document. */
  lemma FiniteText(status: Printable, stamp: Double)
    requires IsFinite(stamp) && AllFinite(status.values)
    ensures StatusText(status, stamp) == Text(Document(status, stamp.num))
  {
    var f, s, b, v := Front(status), StampMember(stamp.num), Back(status), ValuesMember(status.values);
    FrontIsMembers(status);
    BackIsMembers(status);
    StampText(stamp.num);
    ValuesText(status.values);
    assert Document(status, stamp.num) == JObject(f + s + b + v);
    WholeText(f, s, b, v, FrontText(status), NumberText(stamp.num), BackText(status), PairsText(status.values));
  }

  lemma WholeText(f: seq<(string, Value)>, s: seq<(string, Value)>, b: seq<(string, Value)>, v: seq<(string, Value)>,
                  front: string, number: string, back: string, items: string)
    requires f != [] && s != [] && b != [] && v != []
    requires front == "{" + (MembersText(f) + ",\"stamp\":") && MembersText(s) == "\"stamp\":" + number
    requires back == "," + (MembersText(b) + ",\"values\":[") && MembersText(v) == "\"values\":[" + items + "]"
    ensures front + number + back + items + "]}" == Text(JObject(f + s + b + v))
  {
    MembersConcat(f, s);
    MembersConcat(f + s, b);
    MembersConcat(f + s + b, v);
    WholeRegroup(MembersText(f), number, MembersText(b), items);
  }

  lemma WholeRegroup(f: string, n: string, b: string, items: string)
    ensures ("{" + (f + ",\"stamp\":")) + n + ("," + (b + ",\"values\":[")) + items + "]}"
         == "{" + (f + ("," + ("\"stamp\":" + n)) + ("," + b) + ("," + ("\"values\":[" + items + "]"))) + "}"
  {
    var left := "{" + f + ",\"stamp\":" + n + "," + b + ",\"values\":[" + items + "]}";
    assert ("{" + (f + ",\"stamp\":")) + n + ("," + (b + ",\"values\":[")) + items + "]}" == left;
    assert "{" + (f + ("," + ("\"stamp\":" + n)) + ("," + b) + ("," + ("\"values\":[" + items + "]"))) + "}" == left;
  }

  // ---------------------------------------------------------------- buffers the reader rejects

  lemma MemberRejected(key: string, bad: string)
    requires Plain(key) && ReadValue(bad).None?
    ensures ReadMembers("\"" + key + "\":" + bad).None?
  {
    PlainEscape(key);
    ReadEscaped(key, ":" + bad);
    var text := "\"" + key + "\":" + bad;
    assert text[1..] == Escape(key) + "\"" + (":" + bad);
    assert SkipSpace(text) == text;
    assert (":" + bad)[1..] == bad;
  }

  lemma ObjectRejected(inner: string)
    requires StartsWith(inner, '"') && ReadMembers(inner).None?
    ensures ReadValue("{" + inner).None?
  {
    assert ("{" + inner)[1..] == inner;
  }

  lemma MembersStart(members: seq<(string, Value)>, rest: string)
    requires members != []
    ensures StartsWith(MembersText(members) + rest, '"')
  {
    assert MemberText(members[0])[0] == '"';
  }

  lemma BadPairRegroup(key: string, number: string, rest: string)
    ensures "[\"" + key + "\"," + number + "]" + rest
         == "[" + (("\"" + key + "\"") + ("," + (number + ("]" + rest))))
  {}

  lemma BadPairRejected(kv: Pair, rest: string)
    requires !kv.value.Finite?
    ensures ReadItems(PairText(kv) + rest).None?
  {
    var bad := DoubleText(kv.value) + ("]" + rest);
    NonFiniteRejected(kv.value, "]" + rest);
    var key := JString(kv.key);
    ReadBackItem(key, "", bad);
    var inner := Text(key) + ("," + bad);
    BadPairRegroup(Escape(kv.key), DoubleText(kv.value), rest);
    assert PairText(kv) + rest == "[" + inner;
    assert ("[" + inner)[1..] == inner && inner[0] == '"';
    assert SkipSpace(inner) == inner;
  }

  /** The first number that is not finite makes the reader reject the array. */
  lemma {:induction false} PairsRejected(values: seq<Pair>, bad: nat, rest: string)
    requires bad < |values| && !values[bad].value.Finite? && AllFinite(values[..bad])
    ensures ReadItems(PairsText(values) + rest).None?
  {
    var init, last := values[..|values| - 1], values[|values| - 1];
    if |values| == 1 {
      BadPairRejected(values[0], rest);
    } else {
      LastPairRegroup(PairsText(init), PairText(last), rest);
      if bad < |init| {
        assert init[..bad] == values[..bad];
        PairsRejected(init, bad, "," + (PairText(last) + rest));
      } else {
        BadPairRejected(last, rest);
        LastPairRejected(init, PairText(last) + rest);
      }
    }
  }

  lemma FirstBad(values: seq<Pair>) returns (bad: nat)
    requires forall i | 0 <= i < |values| :: values[i].value.Finite? ==> ValidNumber(values[i].value.num)
    requires !AllFinite(values)
    ensures bad < |values| && !values[bad].value.Finite? && AllFinite(values[..bad])
  {
    bad := 0;
    while bad < |values| && values[bad].value.Finite?
      invariant bad <= |values| && forall k | 0 <= k < bad :: IsFinite(values[k].value)
    {
      bad := bad + 1;
    }
  }

  lemma LastPairRejected(init: seq<Pair>, tail: string)
    requires init != [] && AllFinite(init) && ReadItems(tail).None?
    ensures ReadItems(PairsText(init) + ("," + tail)).None?
  {
    PairsAreItems(init);
    PairsValid(init);
    RejectedAfterItems(Pairs(init), tail);
  }

  lemma PairsValid(values: seq<Pair>)
    requires AllFinite(values)
    ensures forall i | 0 <= i < |Pairs(values)| :: ValidValue(Pairs(values)[i])
  {
    forall i | 0 <= i < |Pairs(values)|
      ensures ValidValue(Pairs(values)[i])
    {
      PairValid(values[i]);
    }
  }

  lemma PairValid(kv: Pair)
    requires IsFinite(kv.value)
    ensures ValidValue(PairOf(kv))
  {}

  lemma LastPairRegroup(init: string, pair: string, rest: string)
    ensures init + ("," + pair) + rest == init + ("," + (pair + rest))
  {}

  lemma BadStampRejected(status: Printable, stamp: Double, rest: string)
    requires !stamp.Finite?
    ensures ReadValue(FrontText(status) + (DoubleText(stamp) + rest)).None?
  {
    var bad, f := DoubleText(stamp) + rest, Front(status);
    NonFiniteRejected(stamp, rest);
    StampLiterals();
    MemberRejected("stamp", bad);
    FrontIsMembers(status);
    RejectedAfterMembers(f, "\"" + "stamp" + "\":" + bad);
    StampRegroup(MembersText(f), bad);
    MembersStart(f, "," + ("\"" + "stamp" + "\":" + bad));
    ObjectRejected(MembersText(f) + ("," + ("\"" + "stamp" + "\":" + bad)));
  }

  lemma StampRegroup(f: string, bad: string)
    ensures ("{" + (f + ",\"stamp\":")) + bad == "{" + (f + ("," + ("\"" + "stamp" + "\":" + bad)))
  {}

  lemma BadValuesRejected(status: Printable, stamp: Number)
    requires ValidNumber(stamp) && !AllFinite(status.values) && WellFormed(status, Finite(stamp))
    ensures ReadValue(StatusText(status, Finite(stamp))).None?
  {
    var m := Front(status) + StampMember(stamp) + Back(status);
    var first := FirstBad(status.values);
    PairsRejected(status.values, first, "]}");
    ArrayRejected(status.values);
    SixMembersValid(status, stamp);
    SixMembers(status, stamp);
    LastMemberRejected(m, "[" + (PairsText(status.values) + "]}"));
  }

  lemma LastMemberRejected(m: seq<(string, Value)>, bad: string)
    requires m != [] && forall i | 0 <= i < |m| :: ValidValue(m[i].1)
    requires ReadValue(bad).None?
    ensures ReadValue("{" + (MembersText(m) + ("," + ("\"" + "values" + "\":" + bad)))).None?
  {
    ValuesLiterals();
    MemberRejected("values", bad);
    RejectedAfterMembers(m, "\"" + "values" + "\":" + bad);
    MembersStart(m, "," + ("\"" + "values" + "\":" + bad));
    ObjectRejected(MembersText(m) + ("," + ("\"" + "values" + "\":" + bad)));
  }

  lemma SixMembersValid(status: Printable, stamp: Number)
    requires ValidNumber(stamp)
    ensures var m := Front(status) + StampMember(stamp) + Back(status);
      |m| == 6 && forall i | 0 <= i < |m| :: ValidValue(m[i].1)
  {}

  lemma ArrayRejected(values: seq<Pair>)
    requires values != [] && ReadItems(PairsText(values) + "]}").None?
    ensures ReadValue("[" + (PairsText(values) + "]}")).None?
  {
    var inner := PairsText(values) + "]}";
    PairsStart(values);
    assert ("[" + inner)[1..] == inner && inner[0] == '[';
    assert SkipSpace(inner) == inner;
  }

  lemma {:induction false} PairsStart(values: seq<Pair>)
    requires values != []
    ensures StartsWith(PairsText(values), '[')
  {
    if |values| <= 1 {
    } else {
      PairsStart(values[..|values| - 1]);
    }
  }

  lemma SixMembers(status: Printable, stamp: Number)
    ensures StatusText(status, Finite(stamp))
         == "{" + (MembersText(Front(status) + StampMember(stamp) + Back(status))
                   + ("," + ("\"" + "values" + "\":" + ("[" + (PairsText(status.values) + "]}")))))
  {
    var f, s, b := Front(status), StampMember(stamp), Back(status);
    FrontIsMembers(status);
    BackIsMembers(status);
    StampText(stamp);
    MembersConcat(f, s);
    MembersConcat(f + s, b);
    SixRegroup(MembersText(f), NumberText(stamp), MembersText(b), PairsText(status.values));
  }

  lemma SixRegroup(f: string, n: string, b: string, items: string)
    ensures ("{" + (f + ",\"stamp\":")) + n + ("," + (b + ",\"values\":[")) + items + "]}"
         == "{" + (f + ("," + ("\"stamp\":" + n)) + ("," + b)
                + ("," + ("\"" + "values" + "\":" + ("[" + (items + "]}")))))
  {
    var left := "{" + f + ",\"stamp\":" + n + "," + b + ",\"values\":[" + items + "]}";
    assert ("{" + (f + ",\"stamp\":")) + n + ("," + (b + ",\"values\":[")) + items + "]}" == left;
    assert left
        == "{" + (f + ("," + ("\"stamp\":" + n)) + ("," + b)
               + ("," + ("\"" + "values" + "\":" + ("[" + (items + "]}")))));
  }

  /** What a reader gets from the buffer: the document, unless some number is not finite. */
  lemma ReadingTheBuffer(status: Printable, stamp: Double)
    requires WellFormed(status, stamp)
    ensures Parse(StatusText(status, stamp))
         == if stamp.Finite? && AllFinite(status.values) then Some(Document(status, stamp.num)) else None
  {
    if !stamp.Finite? {
      var rest := BackText(status) + PairsText(status.values) + "]}";
      TailRegroup(FrontText(status), DoubleText(stamp), BackText(status), PairsText(status.values));
      BadStampRejected(status, stamp, rest);
    } else if !AllFinite(status.values) {
      BadValuesRejected(status, stamp.num);
    } else {
      FiniteText(status, stamp);
      DocumentValid(status, stamp.num);
      ParseText(Document(status, stamp.num));
    }
  }

  lemma TailRegroup(f: string, d: string, b: string, items: string)
    ensures f + d + b + items + "]}" == f + (d + (b + items + "]}"))
  {}

  lemma DocumentValid(status: Printable, stamp: Number)
    requires ValidNumber(stamp) && AllFinite(status.values)
    ensures ValidValue(Document(status, stamp))
  {
    PairsValid(status.values);
    assert ValidValue(JArray(Pairs(status.values)));
  }

  // ---------------------------------------------------------------- the printing loops

  /** Appends the escaped bytes of s. */
  method AppendEscaped(out: string, s: string) returns (out': string)
    ensures out' == out + Escape(s)
  {
    out' := out;
    for i := 0 to |s|
      invariant out' == out + Escape(s[..i])
    {
      assert s[..i + 1] == s[..i] + [s[i]];
      EscapeSnoc(s[..i], s[i]);
      Assoc(out, Escape(s[..i]), EscapeChar(s[i]));
      var piece := EscapedPiece(s[i]);
      out' := out' + piece;
    }
    assert s[..|s|] == s;
  }

  /** The switch over one byte; other control characters are printed by "\\u%04x". */
  method EscapedPiece(c: char) returns (piece: string)
    ensures piece == EscapeChar(c)
  {
    match c {
      case '"' => piece := "\\\"";
      case '\\' => piece := "\\\\";
      case '\n' => piece := "\\n";
      case '\r' => piece := "\\r";
      case '\t' => piece := "\\t";
      case _ =>
        if c as int < 0x20 {
          piece := "\\u00" + [HexDigit((c as int) / 16), HexDigit((c as int) % 16)];
        } else {
          piece := [c];
        }
    }
  }

  /** std::to_chars. */
  method AppendDouble(out: string, d: Double) returns (out': string)
    ensures out' == out + DoubleText(d)
  {
    var sign := "";
    if !d.Finite? && d.negative {
      sign := "-";
    }
    match d
    case Finite(n) => out' := out + NumberText(n);
    case Infinite(_) => out' := out + (sign + "inf");
    case NotANumber(_) => out' := out + (sign + "nan");
  }

  method AppendPairs(out: string, values: seq<Pair>) returns (out': string)
    ensures out' == out + PairsText(values)
  {
    out' := out;
    for i := 0 to |values|
      invariant out' == out + PairsText(values[..i])
    {
      var pair := AppendEscaped("[\"", values[i].key);
      pair := AppendDouble(pair + "\",", values[i].value);
      pair := pair + "]";
      assert pair == PairText(values[i]);
      PairsSnoc(values, i);
      Assoc(out, PairsText(values[..i]), "," + pair);
      out' := out' + (if i > 0 then "," + pair else pair);
    }
    assert values[..|values|] == values;
  }

  lemma PairsSnoc(values: seq<Pair>, i: nat)
    requires i < |values|
    ensures PairsText(values[..i + 1])
         == if i > 0 then PairsText(values[..i]) + ("," + PairText(values[i])) else PairText(values[0])
  {
    assert values[..i + 1][..i] == values[..i];
  }

  /** The publisher's message buffer; a reader recovers exactly the document from it, or rejects it
      when a number is not finite. */
  method Render(status: Printable, stamp: Double) returns (buf: string)
    requires WellFormed(status, stamp)
    ensures buf == StatusText(status, stamp)
    ensures Parse(buf) == if stamp.Finite? && AllFinite(status.values) then Some(Document(status, stamp.num)) else None
  {
    buf := "{\"v\":1,\"node\":\"";
    buf := AppendEscaped(buf, status.name);
    buf := buf + "\",\"hw_id\":\"";
    buf := AppendEscaped(buf, status.hardwareId);
    buf := buf + "\",\"stamp\":";
    assert buf == FrontText(status);
    buf := AppendDouble(buf, stamp);
    var back := ",\"level\":" + IntText(status.level) + ",\"msg\":\"";
    back := AppendEscaped(back, status.msg);
    back := back + "\",\"values\":[";
    assert back == BackText(status);
    buf := buf + back;
    buf := AppendPairs(buf, status.values);
    buf := buf + "]}";
    ReadingTheBuffer(status, stamp);
  }

  // ---------------------------------------------------------------- from publisher to aggregator

  /** What the aggregator stores for a published status. */
  ghost predicate Carries(w: Message, status: Printable, stamp: Number)
    requires AllFinite(status.values) && ValidNumber(stamp)
  {
    && w.node == status.name && w.hwId == status.hardwareId && w.msg == status.msg
    && w.level == status.level && w.stamp == NumberValue(stamp)
    && |w.values| == |status.values|
    && forall i | 0 <= i < |w.values| ::
         w.values[i] == Entry(status.values[i].key, JNumber(status.values[i].value.num))
  }

  /** The schema accepts a published document exactly when the name and every key are non-empty and the
      level is one of the four known levels. */
  lemma DocumentAccepted(status: Printable, stamp: Number)
    requires ValidNumber(stamp) && AllFinite(status.values)
    ensures SchemaAccepts(Document(status, stamp))
       <==> status.name != "" && 0 <= status.level <= 3
            && forall i | 0 <= i < |status.values| :: status.values[i].key != ""
  {
    DocumentLookups(status, stamp);
    LevelAccepted(1);
    LevelAccepted(status.level);
    PairsAccepted(status.values);
  }

  lemma LevelAccepted(n: int)
    ensures LevelOf(Some(JNumber(IntNumber(n)))) == if 0 <= n <= 3 then Some(n) else None
    ensures IsNumber(Some(JNumber(IntNumber(n))), n as real)
  {
    IntTextIsToken(n);
    LevelOfValue(IntNumber(n), n);
  }

  lemma LevelOfValue(num: Number, n: int)
    requires ValidNumber(num) && NumberValue(num) == n as real
    ensures LevelOf(Some(JNumber(num))) == if 0 <= n <= 3 then Some(n) else None
    ensures IsNumber(Some(JNumber(num)), n as real)
  {}

  lemma PairsAccepted(values: seq<Pair>)
    requires AllFinite(values)
    ensures forall i | 0 <= i < |values| :: EntryAccepted(Pairs(values)[i]) <==> values[i].key != ""
    ensures forall i | 0 <= i < |values| && values[i].key != "" ::
              EntryOf(Pairs(values)[i]) == Entry(values[i].key, JNumber(values[i].value.num))
  {
    forall i | 0 <= i < |values|
      ensures EntryAccepted(Pairs(values)[i]) <==> values[i].key != ""
      ensures values[i].key != "" ==>
                EntryOf(Pairs(values)[i]) == Entry(values[i].key, JNumber(values[i].value.num))
    {
      assert Pairs(values)[i] == PairOf(values[i]);
    }
  }

  lemma DocumentLookups(status: Printable, stamp: Number)
    requires AllFinite(status.values)
    ensures var m := Document(status, stamp).members;
      && Lookup(m, "v") == Some(JNumber(IntNumber(1)))
      && Lookup(m, "node") == Some(JString(status.name))
      && Lookup(m, "hw_id") == Some(JString(status.hardwareId))
      && Lookup(m, "stamp") == Some(JNumber(stamp))
      && Lookup(m, "level") == Some(JNumber(IntNumber(status.level)))
      && Lookup(m, "msg") == Some(JString(status.msg))
      && Lookup(m, "values") == Some(JArray(Pairs(status.values)))
  {
    var m := Document(status, stamp).members;
    LookupAt(m, 0);
    LookupAt(m, 1);
    LookupAt(m, 2);
    LookupAt(m, 3);
    LookupAt(m, 4);
    LookupAt(m, 5);
    LookupAt(m, 6);
  }

  lemma {:induction false} LookupAt(members: seq<(string, Value)>, i: nat)
    requires i < |members| && forall j | i < j < |members| :: members[j].0 != members[i].0
    ensures Lookup(members, members[i].0) == Some(members[i].1)
  {
    if i < |members| - 1 {
      LookupAt(members[..|members| - 1], i);
    }
  }

  // ---------------------------------------------------------------- bytes on the wire

  /** Every string of the status is valid UTF-8. */
  predicate Decodes(status: Printable) {
    && Decode(status.name).Some? && Decode(status.hardwareId).Some? && Decode(status.msg).Some?
    && KeysDecode(status.values)
  }

  predicate KeysDecode(values: seq<Pair>) {
    forall i | 0 <= i < |values| :: Decode(values[i].key).Some?
  }

  /** The status with its strings as text. */
  function Decoded(status: Printable): Printable
    requires Decodes(status)
  {
    Status(status.level, Decode(status.name).value, Decode(status.msg).value, Decode(status.hardwareId).value,
           DecodedPairs(status.values))
  }

  function DecodedPairs(values: seq<Pair>): (r: seq<Pair>)
    requires KeysDecode(values)
    ensures |r| == |values|
    ensures forall i | 0 <= i < |r| :: r[i] == KeyValue(Decode(values[i].key).value, values[i].value)
  {
    seq(|values|, i requires 0 <= i < |values| => KeyValue(Decode(values[i].key).value, values[i].value))
  }

  lemma {:induction false} DigitsAscii(n: nat)
    ensures AllAscii(NatDigits(n))
  {
    assert AllDigits(NatDigits(n));
  }

  lemma DoubleAscii(d: Double)
    requires d.Finite? ==> ValidNumber(d.num)
    ensures AllAscii(DoubleText(d))
  {
    if d.Finite? {
      var n := d.num;
      FractionAscii(n.fraction);
      ExponentAscii(n.exponent);
      AsciiConcat(FractionText(n.fraction), ExponentText(n.exponent));
      assert AllDigits(n.whole) && AllAscii(n.whole);
      AsciiConcat(n.whole, FractionText(n.fraction) + ExponentText(n.exponent));
    }
  }

  lemma FractionAscii(digits: string)
    requires AllDigits(digits)
    ensures AllAscii(FractionText(digits))
  {}

  lemma ExponentAscii(e: Option<Exponent>)
    requires e.Some? ==> e.value.sign in ["", "+", "-"] && AllDigits(e.value.digits)
    ensures AllAscii(ExponentText(e))
  {
    if e.Some? {
      AsciiConcat(e.value.sign, e.value.digits);
      AsciiConcat("e", e.value.sign + e.value.digits);
    }
  }

  function Framed(before: string, s: Option<string>, after: Option<string>): Option<string> {
    if s.None? || after.None? then None else Some(before + (Escape(s.value) + after.value))
  }

  /** ASCII text, an escaped string, and more text that starts with ASCII. */
  lemma QuotedDecodes(before: string, s: string, after: string)
    requires AllAscii(before) && (after == "" || Ascii(after[0]))
    ensures Decode(before + (Escape(s) + after)) == Framed(before, Decode(s), Decode(after))
  {
    DecodeAscii(before);
    DecodeConcat(before, Escape(s) + after);
    DecodeConcat(Escape(s), after);
    DecodeEscape(s);
  }

  lemma PairDecodes(kv: Pair)
    requires kv.value.Finite? ==> ValidNumber(kv.value.num)
    ensures Decode(PairText(kv))
         == if Decode(kv.key).None? then None else Some(PairText(KeyValue(Decode(kv.key).value, kv.value)))
  {
    DoubleAscii(kv.value);
    var after := "\"," + DoubleText(kv.value) + "]";
    DecodeAscii(after);
    QuotedDecodes("[\"", kv.key, after);
    PairNested(Escape(kv.key), DoubleText(kv.value));
    if Decode(kv.key).Some? {
      PairNested(Escape(Decode(kv.key).value), DoubleText(kv.value));
    }
  }

  lemma PairNested(key: string, number: string)
    ensures "[\"" + key + "\"," + number + "]" == "[\"" + (key + ("\"," + number + "]"))
  {}

  lemma {:induction false} PairsDecode(values: seq<Pair>)
    requires forall i | 0 <= i < |values| :: values[i].value.Finite? ==> ValidNumber(values[i].value.num)
    ensures Decode(PairsText(values))
         == if KeysDecode(values) then Some(PairsText(DecodedPairs(values))) else None
  {
    if values == [] {
    } else {
      PairDecodes(values[|values| - 1]);
      if |values| == 1 {
      } else {
        PairsDecode(values[..|values| - 1]);
        ListDecodes(PairsText(values[..|values| - 1]), PairText(values[|values| - 1]));
        DecodedEnd(values);
      }
    }
  }

  lemma ListDecodes(items: string, item: string)
    ensures Decode(items + ("," + item))
         == if Decode(items).None? || Decode(item).None? then None
            else Some(Decode(items).value + ("," + Decode(item).value))
  {
    DecodeConcat(items, "," + item);
    DecodeAscii(",");
    DecodeConcat(",", item);
  }

  lemma DecodedEnd(values: seq<Pair>)
    requires |values| > 1
    ensures var init, last := values[..|values| - 1], values[|values| - 1];
      && (KeysDecode(values) <==> KeysDecode(init) && Decode(last.key).Some?)
      && (KeysDecode(values) ==>
            PairsText(DecodedPairs(values))
            == PairsText(DecodedPairs(init)) + ("," + PairText(KeyValue(Decode(last.key).value, last.value))))
  {
    var init, last := values[..|values| - 1], values[|values| - 1];
    if KeysDecode(init) && Decode(last.key).Some? {
      assert forall i | 0 <= i < |values| :: i < |init| ==> values[i] == init[i];
    }
    if KeysDecode(values) {
      assert forall i | 0 <= i < |init| :: init[i] == values[i];
      assert DecodedPairs(values)[..|init|] == DecodedPairs(init);
    }
  }

  lemma StatusNested(name: string, hwId: string, stamp: string, level: string, msg: string, items: string)
    ensures ("{\"v\":1,\"node\":\"" + name + "\",\"hw_id\":\"" + hwId + "\",\"stamp\":") + stamp
            + (",\"level\":" + level + ",\"msg\":\"" + msg + "\",\"values\":[") + items + "]}"
         == "{\"v\":1,\"node\":\"" + (name + ("\",\"hw_id\":\"" + (hwId +
              (("\",\"stamp\":" + stamp + ",\"level\":" + level + ",\"msg\":\"") + (msg +
                ("\",\"values\":[" + (items + "]}")))))))
  {}

  /** The buffer, nested so that each string is followed by ASCII text. */
  function Wire(name: string, hwId: string, number: string, level: string, msg: string, items: string): string {
    "{\"v\":1,\"node\":\"" + (Escape(name) + ("\",\"hw_id\":\"" + (Escape(hwId) +
      (("\",\"stamp\":" + number + ",\"level\":" + level + ",\"msg\":\"") + (Escape(msg) +
        ("\",\"values\":[" + (items + "]}")))))))
  }

  lemma StatusIsWire(status: Printable, stamp: Double)
    ensures StatusText(status, stamp)
         == Wire(status.name, status.hardwareId, DoubleText(stamp), IntText(status.level), status.msg,
                 PairsText(status.values))
  {
    StatusNested(Escape(status.name), Escape(status.hardwareId), DoubleText(stamp), IntText(status.level),
                 Escape(status.msg), PairsText(status.values));
  }

  lemma WireDecodes(name: string, hwId: string, number: string, level: string, msg: string, items: string)
    requires AllAscii(number) && AllAscii(level)
    ensures Decode(Wire(name, hwId, number, level, msg, items))
         == if Decode(name).None? || Decode(hwId).None? || Decode(msg).None? || Decode(items).None? then None
            else Some(Wire(Decode(name).value, Decode(hwId).value, number, level, Decode(msg).value,
                           Decode(items).value))
  {
    EndDecodes("\",\"values\":[", items, "]}");
    MiddleAscii(number, level);
    NestedDecodes("{\"v\":1,\"node\":\"", name, "\",\"hw_id\":\"", hwId,
                  "\",\"stamp\":" + number + ",\"level\":" + level + ",\"msg\":\"", msg,
                  "\",\"values\":[" + (items + "]}"));
  }

  /** The decoded buffer is the buffer of the decoded strings; it decodes exactly when each of them does. */
  lemma StatusTextDecodes(status: Printable, stamp: Double)
    requires WellFormed(status, stamp)
    ensures Decode(StatusText(status, stamp))
         == if Decodes(status) then Some(StatusText(Decoded(status), stamp)) else None
  {
    DoubleAscii(stamp);
    IntAscii(status.level);
    PairsDecode(status.values);
    StatusIsWire(status, stamp);
    WireDecodes(status.name, status.hardwareId, DoubleText(stamp), IntText(status.level), status.msg,
                PairsText(status.values));
    if Decodes(status) {
      StatusIsWire(Decoded(status), stamp);
    }
  }

  lemma IntAscii(n: int)
    ensures AllAscii(IntText(n))
  {
    DigitsAscii(if n < 0 then -n else n);
  }

  lemma MiddleAscii(number: string, level: string)
    requires AllAscii(number) && AllAscii(level)
    ensures AllAscii("\",\"stamp\":" + number + ",\"level\":" + level + ",\"msg\":\"")
  {
    AsciiConcat("\",\"stamp\":", number);
    AsciiConcat("\",\"stamp\":" + number, ",\"level\":");
    AsciiConcat("\",\"stamp\":" + number + ",\"level\":", level);
    AsciiConcat("\",\"stamp\":" + number + ",\"level\":" + level, ",\"msg\":\"");
  }

  /** Three escaped strings, each behind ASCII text, and an end that starts with ASCII. */
  lemma NestedDecodes(a: string, x: string, b: string, y: string, c: string, z: string, end: string)
    requires AllAscii(a) && AllAscii(b) && AllAscii(c) && b != "" && c != "" && end != "" && Ascii(end[0])
    ensures Decode(a + (Escape(x) + (b + (Escape(y) + (c + (Escape(z) + end))))))
         == Framed(a, Decode(x), Framed(b, Decode(y), Framed(c, Decode(z), Decode(end))))
  {
    QuotedDecodes(c, z, end);
    QuotedDecodes(b, y, c + (Escape(z) + end));
    QuotedDecodes(a, x, b + (Escape(y) + (c + (Escape(z) + end))));
  }

  lemma EndDecodes(open: string, items: string, close: string)
    requires AllAscii(open) && AllAscii(close) && close != ""
    ensures Decode(open + (items + close))
         == if Decode(items).None? then None else Some(open + (Decode(items).value + close))
  {
    DecodeAscii(open);
    DecodeAscii(close);
    DecodeConcat(open, items + close);
    DecodeConcat(items, close);
  }

  lemma DecodedKeepsNumbers(status: Printable, stamp: Double)
    requires Decodes(status) && WellFormed(status, stamp)
    ensures WellFormed(Decoded(status), stamp)
    ensures AllFinite(Decoded(status).values) <==> AllFinite(status.values)
  {
    if AllFinite(Decoded(status).values) {
      assert forall i | 0 <= i < |status.values| :: Decoded(status).values[i].value == status.values[i].value;
    }
  }

  /** From a status to the aggregator: print, send, decode, parse and normalise. The message is accepted
      exactly when its numbers are finite, its strings are valid UTF-8, its name and keys are non-empty and
      its level is known (and its stamp, were it an integer, fits a double); the aggregator then stores the
      same texts, level and ordered key/value pairs. */
  method Deliver(status: Printable, stamp: Double) returns (r: Normalization)
    requires WellFormed(status, stamp)
    ensures r.Normalized? <==>
              && Decodes(status)
              && stamp.Finite? && !Overflows(stamp.num) && AllFinite(status.values)
              && status.name != "" && 0 <= status.level <= 3
              && forall i | 0 <= i < |status.values| :: status.values[i].key != ""
    ensures r.Normalized? ==> AllFinite(Decoded(status).values) && Carries(r.message, Decoded(status), stamp.num)
  {
    var bytes := Render(status, stamp);
    StatusTextDecodes(status, stamp);
    var text := Decode(bytes);
    if text.None? {
      return Refused;
    }
    DecodedKeepsNumbers(status, stamp);
    NamesKept(status);
    r := Accept(text.value, Decoded(status), stamp);
  }

  lemma NamesKept(status: Printable)
    requires Decodes(status)
    ensures Decoded(status).name == "" <==> status.name == ""
    ensures forall i | 0 <= i < |status.values| :: Decoded(status).values[i].key == "" <==> status.values[i].key == ""
  {
    DecodesIffEncoded(status.name, Decode(status.name).value);
    forall i | 0 <= i < |status.values|
      ensures Decoded(status).values[i].key == "" <==> status.values[i].key == ""
    {
      DecodesIffEncoded(status.values[i].key, Decode(status.values[i].key).value);
    }
  }

  /** Parsing and normalising the text of a status. */
  method Accept(text: string, ghost status: Printable, ghost stamp: Double) returns (r: Normalization)
    requires WellFormed(status, stamp) && text == StatusText(status, stamp)
    ensures r.Normalized? <==>
              && stamp.Finite? && !Overflows(stamp.num) && AllFinite(status.values)
              && status.name != "" && 0 <= status.level <= 3
              && forall i | 0 <= i < |status.values| :: status.values[i].key != ""
    ensures r.Normalized? ==> Carries(r.message, status, stamp.num)
  {
    ReadingTheBuffer(status, stamp);
    var parsed := Parse(text);
    if parsed.None? {
      return Refused;
    }
    DocumentAccepted(status, stamp.num);
    DocumentLookups(status, stamp.num);
    LevelAccepted(status.level);
    PairsAccepted(status.values);
    r := ValidateAndNormalize(parsed.value);
  }
}
