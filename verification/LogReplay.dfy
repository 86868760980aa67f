/** Reading the rolling log back: the lines on disk are the newest messages. */
module LogReplay {
  import opened Json
  import opened JsonText
  import opened Messages
  import opened Options
  import opened RollingLog
  import StatusPrinter

  // ---------------------------------------------------------------- what a line says

  /** Entry i is the one that counts for its key. */
  predicate LastOfKey(members: seq<(string, Value)>, i: nat)
    requires i < |members|
  {
    forall j | i < j < |members| :: members[j].0 != members[i].0
  }

  /** The same value once decoded: numbers by their value, objects by the last entry of each key. */
  predicate SameValue(a: Value, b: Value)
    decreases a
  {
    match a
    case JNull => b.JNull?
    case JBool(_) => a == b
    case JNumber(n) => b.JNumber? && ValidNumber(n) && ValidNumber(b.num) && NumberValue(n) == NumberValue(b.num)
    case JString(_) => a == b
    case JArray(items) =>
      b.JArray? && |items| == |b.items| && forall i | 0 <= i < |items| :: SameValue(items[i], b.items[i])
    case JObject(members) =>
      && b.JObject? && KeysIn(members, b.members) && KeysIn(b.members, members)
      && forall i, j | 0 <= i < |members| && 0 <= j < |b.members| && members[i].0 == b.members[j].0
                       && LastOfKey(members, i) && LastOfKey(b.members, j) ::
           SameValue(members[i].1, b.members[j].1)
  }

  predicate HasKey(members: seq<(string, Value)>, key: string) {
    exists i | 0 <= i < |members| :: members[i].0 == key
  }

  predicate KeysIn(a: seq<(string, Value)>, b: seq<(string, Value)>) {
    forall i | 0 <= i < |a| :: HasKey(b, a[i].0)
  }

  lemma {:induction false} SameAsItself(v: Value)
    requires ValidValue(v)
    ensures SameValue(v, v)
  {
    match v
    case JNull =>
    case JBool(_) =>
    case JNumber(_) =>
    case JString(_) =>
    case JArray(items) =>
      forall i | 0 <= i < |items|
        ensures SameValue(items[i], items[i])
      {
        SameAsItself(items[i]);
      }
    case JObject(members) =>
      assert KeysIn(members, members);
      forall i, j | 0 <= i < |members| && 0 <= j < |members| && members[i].0 == members[j].0
                    && LastOfKey(members, i) && LastOfKey(members, j)
        ensures SameValue(members[i].1, members[j].1)
      {
        assert i == j;
        SameAsItself(members[i].1);
      }
  }

  /** Two messages with the same fields and the same values under the same keys. */
  predicate SameMessage(a: Message, b: Message) {
    && a.(values := []) == b.(values := []) && |a.values| == |b.values|
    && forall i | 0 <= i < |a.values| ::
         a.values[i].key == b.values[i].key && SameValue(a.values[i].value, b.values[i].value)
  }

  /** What normalisation leaves. */
  predicate Normal(m: Message) {
    && m.v == 1 && m.node != "" && 0 <= m.level <= 3
    && forall i | 0 <= i < |m.values| :: m.values[i].key != ""
  }

  predicate SaysEntry(raw: Value, e: Entry) {
    && raw.JObject? && Lookup(raw.members, "key") == Some(JString(e.key))
    && Lookup(raw.members, "value").Some? && SameValue(Lookup(raw.members, "value").value, e.value)
  }

  predicate SaysEntries(items: seq<Value>, values: seq<Entry>) {
    |items| == |values| && forall i | 0 <= i < |items| :: SaysEntry(items[i], values[i])
  }

  /** The object has the fields of the message, its stamp as the double it is. */
  predicate Says(raw: Value, m: Message) {
    && raw.JObject?
    && IsNumber(Lookup(raw.members, "v"), m.v as real)
    && Lookup(raw.members, "node") == Some(JString(m.node))
    && Lookup(raw.members, "hw_id") == Some(JString(m.hwId))
    && IsNumber(Lookup(raw.members, "stamp"), m.stamp) && !Overflows(Lookup(raw.members, "stamp").value.num)
    && IsNumber(Lookup(raw.members, "level"), m.level as real)
    && Lookup(raw.members, "msg") == Some(JString(m.msg))
    && Lookup(raw.members, "values").Some? && Lookup(raw.members, "values").value.JArray?
    && SaysEntries(Lookup(raw.members, "values").value.items, m.values)
  }

  lemma SaysAccepted(raw: Value, m: Message)
    requires Says(raw, m) && Normal(m)
    ensures SchemaAccepts(raw)
  {
    EntriesAccepted(Lookup(raw.members, "values").value.items, m.values);
  }

  lemma EntriesAccepted(items: seq<Value>, values: seq<Entry>)
    requires SaysEntries(items, values) && forall i | 0 <= i < |values| :: values[i].key != ""
    ensures forall i | 0 <= i < |items| ::
              && EntryAccepted(items[i]) && EntryOf(items[i]).key == values[i].key
              && SameValue(EntryOf(items[i]).value, values[i].value)
  {
    forall i | 0 <= i < |items|
      ensures EntryAccepted(items[i]) && EntryOf(items[i]).key == values[i].key
      ensures SameValue(EntryOf(items[i]).value, values[i].value)
    {
      assert SaysEntry(items[i], values[i]) && values[i].key != "";
    }
  }

  /** Normalising an object that says the message gives the message back. */
  method Restore(ghost m: Message, raw: Value) returns (r: Message)
    requires Says(raw, m) && Normal(m)
    ensures SameMessage(r, m)
  {
    SaysAccepted(raw, m);
    EntriesAccepted(Lookup(raw.members, "values").value.items, m.values);
    var normalized := ValidateAndNormalize(raw);
    r := normalized.message;
  }

  /** The dictionary that is dumped for a message, given a token of its stamp. */
  function LogValue(m: Message, stamp: Number): Value {
    JObject([("v", JNumber(StatusPrinter.IntNumber(m.v))), ("node", JString(m.node)), ("hw_id", JString(m.hwId)),
             ("stamp", JNumber(stamp)), ("level", JNumber(StatusPrinter.IntNumber(m.level))),
             ("msg", JString(m.msg)), ("values", JArray(EntryValues(m.values)))])
  }

  function EntryValue(e: Entry): Value { JObject([("key", JString(e.key)), ("value", e.value)]) }

  function EntryValues(values: seq<Entry>): (r: seq<Value>)
    ensures |r| == |values| && forall i | 0 <= i < |r| :: r[i] == EntryValue(values[i])
  {
    seq(|values|, i requires 0 <= i < |values| => EntryValue(values[i]))
  }

  lemma LogLookups(m: Message, stamp: Number)
    ensures var members := LogValue(m, stamp).members;
      && Lookup(members, "v") == Some(JNumber(StatusPrinter.IntNumber(m.v)))
      && Lookup(members, "node") == Some(JString(m.node))
      && Lookup(members, "hw_id") == Some(JString(m.hwId))
      && Lookup(members, "stamp") == Some(JNumber(stamp))
      && Lookup(members, "level") == Some(JNumber(StatusPrinter.IntNumber(m.level)))
      && Lookup(members, "msg") == Some(JString(m.msg))
      && Lookup(members, "values") == Some(JArray(EntryValues(m.values)))
  {
    var members := LogValue(m, stamp).members;
    StatusPrinter.LookupAt(members, 0);
    StatusPrinter.LookupAt(members, 1);
    StatusPrinter.LookupAt(members, 2);
    StatusPrinter.LookupAt(members, 3);
    StatusPrinter.LookupAt(members, 4);
    StatusPrinter.LookupAt(members, 5);
    StatusPrinter.LookupAt(members, 6);
  }

  lemma EntryKept(e: Entry)
    requires ValidValue(e.value)
    ensures ValidValue(EntryValue(e)) && SaysEntry(EntryValue(e), e)
  {
    StatusPrinter.LookupAt(EntryValue(e).members, 0);
    StatusPrinter.LookupAt(EntryValue(e).members, 1);
    SameAsItself(e.value);
  }

  lemma EntriesKept(values: seq<Entry>)
    requires forall i | 0 <= i < |values| :: ValidValue(values[i].value)
    ensures SaysEntries(EntryValues(values), values) && ValidValue(JArray(EntryValues(values)))
  {
    forall i | 0 <= i < |values|
      ensures ValidValue(EntryValues(values)[i]) && SaysEntry(EntryValues(values)[i], values[i])
    {
      EntryKept(values[i]);
    }
  }

  lemma LogSays(m: Message, stamp: Number)
    requires ValidNumber(stamp) && NumberValue(stamp) == m.stamp && !Overflows(stamp)
    requires Normal(m) && forall i | 0 <= i < |m.values| :: ValidValue(m.values[i].value)
    ensures Says(LogValue(m, stamp), m) && ValidValue(LogValue(m, stamp))
  {
    LogLookups(m, stamp);
    StatusPrinter.LevelAccepted(1);
    StatusPrinter.LevelAccepted(m.level);
    EntriesKept(m.values);
  }

  // ---------------------------------------------------------------- lines

  predicate OneLine(s: string) { '\n' !in s }

  /** A message to log, and the text that is dumped for it. */
  datatype Logged = Logged(message: Message, text: string)

  /** The text is one line of JSON that says the message, whatever its spacing, escapes and spelling of
      numbers. */
  predicate Storable(l: Logged) {
    Normal(l.message) && OneLine(l.text) && Parse(l.text).Some? && Says(Parse(l.text).value, l.message)
  }

  lemma OneLineConcat(a: string, b: string)
    requires OneLine(a) && OneLine(b)
    ensures OneLine(a + b)
  {}

  lemma {:induction false} EscapeOneLine(s: string)
    ensures OneLine(Escape(s))
  {
    if s == "" {
    } else {
      EscapeOneLine(s[1..]);
      OneLineConcat(EscapeChar(s[0]), Escape(s[1..]));
    }
  }

  lemma DigitsOneLine(digits: string)
    requires AllDigits(digits)
    ensures OneLine(digits)
  {}

  lemma NumberOneLine(n: Number)
    requires ValidNumber(n)
    ensures OneLine(NumberText(n))
  {
    DigitsOneLine(n.whole);
    DigitsOneLine(n.fraction);
    if n.exponent.Some? {
      DigitsOneLine(n.exponent.value.digits);
      OneLineConcat(n.exponent.value.sign, n.exponent.value.digits);
      OneLineConcat("e", n.exponent.value.sign + n.exponent.value.digits);
    }
    OneLineConcat(".", n.fraction);
    OneLineConcat(FractionText(n.fraction), ExponentText(n.exponent));
    OneLineConcat(n.whole, FractionText(n.fraction) + ExponentText(n.exponent));
    OneLineConcat("-", n.whole + (FractionText(n.fraction) + ExponentText(n.exponent)));
  }

  lemma {:induction false} TextOneLine(v: Value)
    requires ValidValue(v)
    ensures OneLine(Text(v))
    decreases v, 0
  {
    match v
    case JNull =>
    case JBool(_) =>
    case JNumber(n) => NumberOneLine(n);
    case JString(s) =>
      EscapeOneLine(s);
      OneLineConcat("\"" + Escape(s), "\"");
    case JArray(items) =>
      ItemsOneLine(items);
      OneLineConcat("[" + ItemsText(items), "]");
    case JObject(members) =>
      MembersOneLine(members);
      OneLineConcat("{" + MembersText(members), "}");
  }

  lemma {:induction false} ItemsOneLine(items: seq<Value>)
    requires forall i | 0 <= i < |items| :: ValidValue(items[i])
    ensures OneLine(ItemsText(items))
    decreases items, 1
  {
    if items == [] {
    } else {
      TextOneLine(items[0]);
      ItemsOneLine(items[1..]);
      OneLineConcat(",", ItemsText(items[1..]));
      OneLineConcat(Text(items[0]), if |items| == 1 then "" else "," + ItemsText(items[1..]));
    }
  }

  lemma {:induction false} MembersOneLine(members: seq<(string, Value)>)
    requires forall i | 0 <= i < |members| :: ValidValue(members[i].1)
    ensures OneLine(MembersText(members))
    decreases members, 2
  {
    if members == [] {
    } else {
      MemberOneLine(members[0]);
      MembersOneLine(members[1..]);
      OneLineConcat(",", MembersText(members[1..]));
      OneLineConcat(MemberText(members[0]), if |members| == 1 then "" else "," + MembersText(members[1..]));
    }
  }

  lemma {:induction false} MemberOneLine(m: (string, Value))
    requires ValidValue(m.1)
    ensures OneLine(MemberText(m))
    decreases m, 1
  {
    EscapeOneLine(m.0);
    TextOneLine(m.1);
    OneLineConcat("\"" + Escape(m.0), "\":");
    OneLineConcat("\"" + Escape(m.0) + "\":", Text(m.1));
  }

  /** The compact writer makes such a text of every normalised message. */
  lemma CompactIsStorable(m: Message, stamp: Number)
    requires ValidNumber(stamp) && NumberValue(stamp) == m.stamp && !Overflows(stamp)
    requires Normal(m) && forall i | 0 <= i < |m.values| :: ValidValue(m.values[i].value)
    ensures Storable(Logged(m, Text(LogValue(m, stamp))))
  {
    LogSays(m, stamp);
    TextOneLine(LogValue(m, stamp));
    ParseText(LogValue(m, stamp));
  }

  // ---------------------------------------------------------------- reading the files

  /** The text before the first newline, and what follows it. */
  function FirstLine(s: string): (r: (string, string))
    ensures OneLine(r.0) && |r.1| <= |s|
    ensures '\n' in s ==> s == r.0 + "\n" + r.1
  {
    if s == "" then ("", "")
    else if s[0] == '\n' then ("", s[1..])
    else
      var rest := FirstLine(s[1..]);
      assert s == [s[0]] + s[1..];
      ([s[0]] + rest.0, rest.1)
  }

  lemma {:induction false} FirstLineIs(line: string, rest: string)
    requires OneLine(line)
    ensures FirstLine(line + "\n" + rest) == (line, rest)
  {
    if line == "" {
      assert (line + "\n" + rest)[1..] == rest;
    } else {
      assert line[0] in line && forall c | c in line[1..] :: c in line;
      FirstLineIs(line[1..], rest);
      assert (line + "\n" + rest)[1..] == line[1..] + "\n" + rest;
      assert line == [line[0]] + line[1..];
    }
  }

  function LineOf(l: Logged): string { l.text + "\n" }

  function LinesOf(entries: seq<Logged>): (r: seq<string>)
    ensures |r| == |entries| && forall i | 0 <= i < |r| :: r[i] == LineOf(entries[i])
  {
    seq(|entries|, i requires 0 <= i < |entries| => LineOf(entries[i]))
  }

  /** The messages are those of the entries, in order. */
  predicate SameMessages(messages: seq<Message>, entries: seq<Logged>) {
    |messages| == |entries| && forall i | 0 <= i < |messages| :: SameMessage(messages[i], entries[i].message)
  }

  lemma ConcatHead(lines: seq<string>)
    requires lines != []
    ensures Concat(lines) == lines[0] + Concat(lines[1..])
  {
    assert lines == [lines[0]] + lines[1..] && [lines[0]][..0] == [];
    ConcatSplit([lines[0]], lines[1..]);
    assert Concat([]) + lines[0] == lines[0];
  }

  lemma LinesTail(entries: seq<Logged>)
    requires entries != []
    ensures Concat(LinesOf(entries))
         == entries[0].text + "\n" + Concat(LinesOf(entries[1..]))
  {
    ConcatHead(LinesOf(entries));
    assert LinesOf(entries)[1..] == LinesOf(entries[1..]);
  }

  predicate AllStorable(entries: seq<Logged>) {
    forall i | 0 <= i < |entries| :: Storable(entries[i])
  }

  /** The file holds the lines of the entries. */
  predicate Holds(bytes: string, entries: seq<Logged>) {
    AllStorable(entries) && bytes == Concat(LinesOf(entries))
  }

  lemma HoldsMore(bytes: string, entries: seq<Logged>)
    requires Holds(bytes, entries)
    ensures bytes == "" <==> entries == []
  {
    if entries == [] {
      assert LinesOf(entries) == [];
    } else {
      LinesTail(entries);
    }
  }

  lemma SameMessagesSnoc(messages: seq<Message>, entries: seq<Logged>, m: Message, l: Logged)
    requires SameMessages(messages, entries) && SameMessage(m, l.message)
    ensures SameMessages(messages + [m], entries + [l])
  {}

  /** Reads a file line by line: every message that was logged comes back, in order. */
  method ReadLog(bytes: string, ghost entries: seq<Logged>) returns (messages: seq<Message>)
    requires Holds(bytes, entries)
    ensures SameMessages(messages, entries)
  {
    messages := [];
    var rest := bytes;
    ghost var done, left := [], entries;
    while rest != ""
      invariant Holds(rest, left) && done + left == entries && SameMessages(messages, done)
      decreases |left|
    {
      HoldsMore(rest, left);
      Regroup(done, left);
      var m;
      m, rest := NextMessage(rest, left);
      SameMessagesSnoc(messages, done, m, left[0]);
      messages := messages + [m];
      done, left := done + [left[0]], left[1..];
    }
    HoldsMore(rest, left);
    assert done + [] == done;
  }

  lemma Regroup(done: seq<Logged>, left: seq<Logged>)
    requires left != []
    ensures done + left == done + [left[0]] + left[1..]
  {
    assert left == [left[0]] + left[1..];
  }

  /** The first line of a file, and the file behind it. */
  method NextMessage(text: string, ghost entries: seq<Logged>) returns (m: Message, rest: string)
    requires entries != [] && Holds(text, entries)
    ensures SameMessage(m, entries[0].message) && Holds(rest, entries[1..])
  {
    LinesTail(entries);
    FirstLineIs(entries[0].text, Concat(LinesOf(entries[1..])));
    var cut := FirstLine(text);
    m := ReadLine(cut.0, entries[0]);
    rest := cut.1;
  }

  method ReadLine(line: string, ghost l: Logged) returns (m: Message)
    requires Storable(l) && line == l.text
    ensures SameMessage(m, l.message)
  {
    var parsed := Parse(line);
    m := Restore(l.message, parsed.value);
  }

  lemma HoldsFrom(kept: string, lines: seq<string>, entries: seq<Logged>, k: nat)
    requires AllStorable(entries) && lines == LinesOf(entries) && k <= |lines| && kept == Concat(lines[k..])
    ensures Holds(kept, entries[k..])
  {
    assert lines[k..] == LinesOf(entries[k..]);
  }

  /** At any moment of any run, reading the backup and then the log gives exactly the newest messages that
      the rolling has kept. */
  method ReplayKept(sink: JsonFileSink, ghost entries: seq<Logged>) returns (messages: seq<Message>)
    requires sink.Valid() && AllStorable(entries) && sink.lines == LinesOf(entries)
    ensures sink.oldest <= |entries| && SameMessages(messages, entries[sink.oldest..])
  {
    NewestLinesKept(sink);
    var kept := Bytes(sink.backup) + Bytes(sink.current);
    HoldsFrom(kept, sink.lines, entries, sink.oldest);
    messages := ReadLog(kept, entries[sink.oldest..]);
  }
}
