/** The batching buffer in front of the time-series database. */
module InfluxSink {
  import opened Json
  import opened Messages
  import opened Options
  import opened Paths

  /** A field: a number, or the text of a value that is none. */
  datatype Field = Num(x: real) | Text(s: string)

  /** One buffered point: where the path puts it, its tags and fields, and when it was handled. */
  datatype Point = Point(measurement: string, hwId: string, path: string, name: string, component: string,
                         fields: map<string, Field>, timeNs: int)

  /** A rate-limited write call: its batch and the reading of the clock. */
  datatype Write = Write(batch: seq<Point>, at: real)

  const FLUSH_INTERVAL: real := 1.0

  // ---------------------------------------------------------------- fields

  /** float() raises an error that is not caught for an integer too large for a double. */
  predicate Raises(v: Value) { v.JNumber? && ValidNumber(v.num) && Overflows(v.num) }

  /** float(): numbers and booleans become numbers; `text` is what becomes of strings (a number if they read
      as one), null, lists and objects. */
  function ToField(text: Value -> Field, v: Value): Field {
    match v
    case JNumber(n) => if ValidNumber(n) then Num(NumberValue(n)) else text(v)
    case JBool(b) => Num(if b then 1.0 else 0.0)
    case _ => text(v)
  }

  function AsMembers(values: seq<Entry>): (r: seq<(string, Value)>)
    ensures |r| == |values| && forall i | 0 <= i < |r| :: r[i] == (values[i].key, values[i].value)
  {
    seq(|values|, i requires 0 <= i < |values| => (values[i].key, values[i].value))
  }

  /** The last value given under a key. */
  function LastValue(m: Message, key: string): Option<Value> { Lookup(AsMembers(m.values), key) }

  /** The field a message has under a key: its text under "message" unless that is empty, the last value
      given under the key, or its level. */
  function FieldOf(text: Value -> Field, m: Message, key: string): Option<Field> {
    if key == "message" && m.msg != "" then Some(Text(m.msg))
    else if LastValue(m, key).Some? then Some(ToField(text, LastValue(m, key).value))
    else if key == "level" then Some(Num(m.level as real))
    else None
  }

  ghost predicate AreFields(text: Value -> Field, m: Message, fields: map<string, Field>) {
    forall key :: (key in fields <==> FieldOf(text, m, key).Some?)
               && (key in fields ==> fields[key] == FieldOf(text, m, key).value)
  }

  /** float() of a value, falling back to its text; None when it raises. */
  method Coerce(text: Value -> Field, v: Value) returns (r: Option<Field>)
    ensures r == if Raises(v) then None else Some(ToField(text, v))
  {
    if v.JNumber? && ValidNumber(v.num) {
      if v.num.fraction == "" && v.num.exponent.None? && DigitsValue(v.num.whole) >= FLOAT_LIMIT {
        return None;
      }
      return Some(Num(NumberValue(v.num)));
    }
    if v.JBool? {
      return Some(Num(if v.b then 1.0 else 0.0));
    }
    r := Some(text(v));
  }

  /** The dictionary of fields, one assignment per value, unless one of them raises. */
  method BuildFields(text: Value -> Field, m: Message) returns (r: Option<map<string, Field>>)
    ensures r.None? <==> exists i | 0 <= i < |m.values| :: Raises(m.values[i].value)
    ensures r.Some? ==> AreFields(text, m, r.value)
  {
    var fields := map["level" := Num(m.level as real)];
    ghost var members := AsMembers(m.values);
    for i := 0 to |m.values|
      invariant forall k | 0 <= k < i :: !Raises(m.values[k].value)
      invariant forall key :: key in fields <==> Lookup(members[..i], key).Some? || key == "level"
      invariant forall key | key in fields ::
                  fields[key] == if Lookup(members[..i], key).Some? then ToField(text, Lookup(members[..i], key).value)
                                 else Num(m.level as real)
    {
      var field := Coerce(text, m.values[i].value);
      if field.None? {
        return None;
      }
      assert members[..i + 1][..i] == members[..i];
      fields := fields[m.values[i].key := field.value];
    }
    assert members[..|m.values|] == members;
    if m.msg != "" {
      fields := fields["message" := Text(m.msg)];
    }
    r := Some(fields);
  }

  lemma {:induction false} LookupNone(members: seq<(string, Value)>, key: string)
    ensures Lookup(members, key).None? <==> forall i | 0 <= i < |members| :: members[i].0 != key
  {
    if members == [] {
    } else {
      LookupNone(members[..|members| - 1], key);
    }
  }

  /** A point carries the level of its message whenever no value is itself called "level", and otherwise
      carries that value in its place. */
  lemma LevelFieldIff(text: Value -> Field, m: Message, fields: map<string, Field>)
    requires AreFields(text, m, fields)
    ensures "level" in fields
    ensures fields["level"] == Num(m.level as real)
       <==> LastValue(m, "level").None? || ToField(text, LastValue(m, "level").value) == Num(m.level as real)
    ensures LastValue(m, "level").None? <==> forall i | 0 <= i < |m.values| :: m.values[i].key != "level"
  {
    LookupNone(AsMembers(m.values), "level");
    assert FieldOf(text, m, "level").Some?;
  }

  /** Such a message: an error with a value called "level" of another number is stored at that number. */
  lemma LevelLost(text: Value -> Field, m: Message, fields: map<string, Field>, n: Number)
    requires m.level == 2 && m.values == [Entry("level", JNumber(n))]
    requires ValidNumber(n) && NumberValue(n) != 2.0 && AreFields(text, m, fields)
    ensures "level" in fields && fields["level"] == Num(NumberValue(n)) != Num(m.level as real)
  {
    LevelFieldIff(text, m, fields);
    assert FieldOf(text, m, "level").Some?;
  }

  // ---------------------------------------------------------------- tags

  function Measurement(node: string): string {
    var parts := Pieces(node);
    if parts == [] then "unknown" else parts[|parts| - 1]
  }

  function NameTag(node: string): string {
    var parts := Pieces(node);
    if |parts| >= 2 then parts[|parts| - 2] else Measurement(node)
  }

  function Component(node: string): string {
    var parts := Pieces(node);
    if |parts| >= 2 then Join(parts[..|parts| - 2]) else ""
  }

  /** int(): towards zero. */
  function Truncated(x: real): (n: int)
    ensures if x >= 0.0 then n as real <= x < (n + 1) as real else (n - 1) as real < x <= n as real
  {
    if x >= 0.0 then x.Floor else -((-x).Floor)
  }

  ghost predicate IsPointOf(text: Value -> Field, m: Message, time: real, p: Point) {
    && p.measurement == Measurement(m.node) && p.name == NameTag(m.node) && p.component == Component(m.node)
    && p.hwId == (if m.hwId != "" then m.hwId else "unknown") && p.path == m.node
    && p.timeNs == Truncated(1000000000.0 * time)
    && AreFields(text, m, p.fields)
  }

  method MakePoint(ghost text: Value -> Field, message: Message, fields: map<string, Field>, time: real)
    returns (point: Point)
    requires AreFields(text, message, fields)
    ensures IsPointOf(text, message, time, point)
  {
    var parts := Pieces(message.node);
    var measurement := if parts != [] then parts[|parts| - 1] else "unknown";
    var name, component := measurement, "";
    if |parts| >= 2 {
      name, component := parts[|parts| - 2], Join(parts[..|parts| - 2]);
    }
    var hwId := if message.hwId != "" then message.hwId else "unknown";
    point := Point(measurement, hwId, message.node, name, component, fields, Truncated(1000000000.0 * time));
  }

  /** Component, name and measurement rejoin to the segments of the path exactly when it has two at least:
      a shorter path gets its only segment, or "unknown", for both name and measurement. */
  lemma PointKeepsPathIff(node: string)
    ensures Pieces(Component(node) + "/" + NameTag(node) + "/" + Measurement(node)) == Pieces(node)
       <==> |Pieces(node)| >= 2
  {
    PiecesAreSegments(node);
    if |Pieces(node)| >= 2 {
      PartsKept(Pieces(node));
    } else {
      PiecesOfSegment(NameTag(node));
      ThreeParts(Component(node), NameTag(node), Measurement(node));
      assert Pieces("") == [];
    }
  }

  lemma PartsKept(parts: seq<string>)
    requires |parts| >= 2 && forall i | 0 <= i < |parts| :: Segment(parts[i])
    ensures Pieces(Join(parts[..|parts| - 2]) + "/" + parts[|parts| - 2] + "/" + parts[|parts| - 1]) == parts
  {
    var head, name, last := parts[..|parts| - 2], parts[|parts| - 2], parts[|parts| - 1];
    PathOfParts(head, name, last);
    assert parts == head + [name] + [last];
  }

  lemma PathOfParts(head: seq<string>, name: string, last: string)
    requires Segment(name) && Segment(last) && forall i | 0 <= i < |head| :: Segment(head[i])
    ensures Pieces(Join(head) + "/" + name + "/" + last) == head + [name] + [last]
  {
    PiecesOfSegment(name);
    PiecesOfSegment(last);
    PiecesOfSegments(head);
    ThreeParts(Join(head), name, last);
  }

  lemma ThreeParts(a: string, b: string, c: string)
    ensures Pieces(a + "/" + b + "/" + c) == Pieces(a) + Pieces(b) + Pieces(c)
  {
    PiecesAtSlash(a + "/" + b, c);
    PiecesAtSlash(a, b);
  }

  function Batches(writes: seq<Write>): seq<Point> {
    if writes == [] then [] else Batches(writes[..|writes| - 1]) + writes[|writes| - 1].batch
  }

  lemma BatchesSnoc(writes: seq<Write>, w: Write)
    ensures Batches(writes + [w]) == Batches(writes) + w.batch
  {
    assert (writes + [w])[..|writes|] == writes;
  }

  /** The points of several final batches. */
  function Flat(batches: seq<seq<Point>>): seq<Point> {
    if batches == [] then [] else Flat(batches[..|batches| - 1]) + batches[|batches| - 1]
  }

  class InfluxDBSink {
    const enabled: bool
    const text: Value -> Field
    var pending: seq<Point>
    var lastFlush: real

    /** Every attempted write, failed ones included: the rate-limited ones and the final ones of close. */
    ghost var writes: seq<Write>
    ghost var finals: seq<seq<Point>>

    /** Every point handled. */
    ghost var handled: seq<Point>

    /** Rate-limited batches followed by the buffer are the handled points in order, closed or not, and those
        batches are at least one interval apart. */
    ghost predicate Valid()
      reads this
    {
      && (!enabled ==> handled == [] && pending == [] && writes == [] && finals == [])
      && Batches(writes) + pending == handled
      && (forall i | 0 <= i < |writes| :: writes[i].batch != [])
      && lastFlush == (if writes == [] then 0.0 else writes[|writes| - 1].at)
      && forall i | 0 < i < |writes| :: writes[i].at - writes[i - 1].at >= 1.0
    }

    constructor (usable: bool, toText: Value -> Field)
      ensures Valid() && enabled == usable && text == toText && writes == [] && finals == [] && handled == []
    {
      text := toText;
      enabled, pending, lastFlush, writes, finals, handled := usable, [], 0.0, [], [], [];
    }

    /** Buffers the point of a message, unless one of its values raises: then nothing changes. */
    method HandleMessage(message: Message, time: real) returns (raised: bool)
      requires Valid()
      modifies `pending, `handled
      ensures Valid()
      ensures raised <==> enabled && exists i | 0 <= i < |message.values| :: Raises(message.values[i].value)
      ensures if enabled && !raised
              then |handled| == |old(handled)| + 1 && handled[..|old(handled)|] == old(handled)
                   && IsPointOf(text, message, time, handled[|old(handled)|])
              else handled == old(handled) && pending == old(pending)
    {
      if !enabled {
        return false;
      }
      var fields := BuildFields(text, message);
      if fields.None? {
        return true;
      }
      var point := MakePoint(text, message, fields.value, time);
      assert Batches(writes) + (pending + [point]) == handled + [point];
      pending := pending + [point];
      handled := handled + [point];
      raised := false;
    }

    /** One batch at most once per interval; a failing write drops its batch. */
    method Flush(now: real)
      requires Valid()
      modifies `pending, `lastFlush, `writes
      ensures Valid()
      ensures if old(pending) == [] || now - old(lastFlush) < 1.0
              then writes == old(writes) && pending == old(pending)
              else writes == old(writes) + [Write(old(pending), now)] && pending == []
    {
      if pending == [] || now - lastFlush < FLUSH_INTERVAL {
        return;
      }
      var points := pending;
      pending := [];
      lastFlush := now;
      assert Batches(writes + [Write(points, now)]) + [] == handled by {
        BatchesSnoc(writes, Write(points, now));
      }
      writes := writes + [Write(points, now)];
    }

    /** The final flush ignores the rate limit and leaves the buffer as it is: the first one attempts exactly
        the remainder. */
    method Close()
      requires Valid()
      modifies `finals
      ensures Valid()
      ensures finals == if pending == [] then old(finals) else old(finals) + [pending]
      ensures old(finals) == [] ==> Batches(writes) + Flat(finals) == handled
    {
      if pending != [] && enabled {
        FlatSnoc(finals, pending);
        finals := finals + [pending];
      }
      assert old(finals) == [] ==> Flat(finals) == pending;
    }

    /** Closing again repeats the last batch exactly when something was pending: the buffer is never
        cleared, so only an empty buffer makes close safe to repeat. */
    method CloseTwice()
      requires Valid() && finals == []
      modifies `finals
      ensures Batches(writes) + Flat(finals) == handled + pending
      ensures Batches(writes) + Flat(finals) == handled <==> pending == []
    {
      Close();
      ghost var once := finals;
      Close();
      if pending != [] {
        FlatSnoc(once, pending);
        assert Batches(writes) + (Flat(once) + pending) == Batches(writes) + Flat(once) + pending;
      } else {
        assert handled + pending == handled;
      }
    }
  }

  lemma FlatSnoc(batches: seq<seq<Point>>, batch: seq<Point>)
    ensures Flat(batches + [batch]) == Flat(batches) + batch
  {
    assert (batches + [batch])[..|batches|] == batches;
  }
}
