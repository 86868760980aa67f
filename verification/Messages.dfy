/** The normalised diagnostics message and the acceptance of raw JSON payloads. */
module Messages {
  import opened Json
  import opened Options

  datatype Entry = Entry(key: string, value: Value)

  datatype Message = Message(
    v: int,
    node: string,
    hwId: string,
    stamp: real,
    level: int,
    msg: string,
    values: seq<Entry>)

  // ---------------------------------------------------------------- the value of a number token

  function DigitsValue(s: string): nat
    requires AllDigits(s)
  {
    if s == "" then 0 else 10 * DigitsValue(s[..|s| - 1]) + ((s[|s| - 1] as int) - ('0' as int))
  }

  function Power(base: nat, k: nat): nat {
    if k == 0 then 1 else base * Power(base, k - 1)
  }

  /** Powers multiply by adding exponents. */
  lemma {:induction false} PowerLaws(base: nat, j: nat, k: nat)
    ensures Power(base, 0) == 1 && Power(base, 1) == base
    ensures Power(base, j + k) == Power(base, j) * Power(base, k)
  {
    if j == 0 {
      assert Power(base, 1) == base * Power(base, 0);
    } else {
      PowerLaws(base, j - 1, k);
      assert Power(base, j + k) == base * Power(base, j - 1 + k);
      Regroup(base, Power(base, j - 1), Power(base, k));
    }
  }

  lemma Regroup(a: nat, b: nat, c: nat)
    ensures a * (b * c) == a * b * c
  {}

  /** The value of the digits behind a point. */
  function FractionValue(digits: string): real
    requires AllDigits(digits)
  {
    if digits == "" then 0.0
    else ((digits[0] as int - '0' as int) as real + FractionValue(digits[1..])) / 10.0
  }

  /** Moves the point by k places. */
  function Moved(x: real, k: nat, left: bool): real {
    if k == 0 then x else if left then Moved(x, k - 1, left) / 10.0 else Moved(x, k - 1, left) * 10.0
  }

  function Scaled(x: real, e: Exponent): real
    requires AllDigits(e.digits)
  {
    Moved(x, DigitsValue(e.digits), e.sign == "-")
  }

  /** The value without exponent and sign. */
  function Magnitude(n: Number): real
    requires ValidNumber(n)
  {
    DigitsValue(n.whole) as real + FractionValue(n.fraction)
  }

  /** Exact decimal value of a valid token. */
  function NumberValue(n: Number): real
    requires ValidNumber(n)
  {
    var scaled := if n.exponent.None? then Magnitude(n) else Scaled(Magnitude(n), n.exponent.value);
    if n.negative then -scaled else scaled
  }

  // ---------------------------------------------------------------- what the value of a token means

  /** Moving the point by k places multiplies by ten to the k, or divides by it. */
  lemma {:induction false} MovedMeans(x: real, k: nat)
    ensures Moved(x, k, false) == x * Power(10, k) as real
    ensures Moved(x, k, true) * Power(10, k) as real == x
  {
    if k == 0 {
    } else {
      MovedMeans(x, k - 1);
      OnePlace(x, Moved(x, k - 1, true), Power(10, k - 1));
    }
  }

  lemma OnePlace(x: real, y: real, p: nat)
    requires y * p as real == x
    ensures (y / 10.0) * (10 * p) as real == x
    ensures x * (10 * p) as real == x * p as real * 10.0
  {
    var z := y / 10.0;
    assert z * (10 * p) as real == (10.0 * z) * p as real;
  }

  lemma {:induction false} MovedSum(x: real, y: real, k: nat)
    ensures Moved(x + y, k, false) == Moved(x, k, false) + Moved(y, k, false)
    ensures Moved(-x, k, false) == -Moved(x, k, false) && Moved(-x, k, true) == -Moved(x, k, true)
  {
    if k == 0 {
    } else {
      MovedSum(x, y, k - 1);
    }
  }

  /** Moving back and forth changes nothing. */
  lemma {:induction false} MovedBack(x: real, k: nat)
    ensures Moved(Moved(x, k, true), k, false) == x
  {
    if k == 0 {
    } else {
      MovedBack(x, k - 1);
      MovedTenth(Moved(x, k - 1, true), k - 1);
    }
  }

  lemma {:induction false} MovedTenth(x: real, k: nat)
    ensures Moved(x / 10.0, k + 1, false) == Moved(x, k, false)
  {
    if k == 0 {
      assert Moved(x / 10.0, 1, false) == Moved(x / 10.0, 0, false) * 10.0;
    } else {
      MovedTenth(x, k - 1);
      assert Moved(x / 10.0, k + 1, false) == Moved(x / 10.0, k, false) * 10.0;
    }
  }

  /** Digits written one after another, in base ten. */
  lemma {:induction false} DigitsLaws(a: string, b: string)
    requires AllDigits(a) && AllDigits(b)
    ensures AllDigits(a + b)
    ensures DigitsValue(a + b) as real == Moved(DigitsValue(a) as real, |b|, false) + DigitsValue(b) as real
    ensures DigitsValue("") == 0 && (|a| == 1 ==> DigitsValue(a) == a[0] as int - '0' as int)
  {
    if b == "" {
      assert a + b == a;
      assert |a| == 1 ==> a[..0] == "";
    } else {
      DigitsLaws(a, b[..|b| - 1]);
      assert (a + b)[..|a + b| - 1] == a + b[..|b| - 1];
    }
  }

  /** Shifting the digits behind a point in front of it gives the integer they write. */
  lemma {:induction false} FractionMeans(digits: string)
    requires AllDigits(digits)
    ensures Moved(FractionValue(digits), |digits|, false) == DigitsValue(digits) as real
  {
    if digits == "" {
    } else {
      var first, rest := digits[..1], digits[1..];
      FractionMeans(rest);
      assert digits == first + rest;
      DigitsLaws(first, rest);
      MovedTenth(DigitsValue(first) as real + FractionValue(rest), |rest|);
      MovedSum(DigitsValue(first) as real, FractionValue(rest), |rest|);
    }
  }

  /** The point: shifting it behind the last digit gives the integer that the digits of both parts write. */
  lemma PointMeans(n: Number)
    requires ValidNumber(n) && n.exponent.None?
    ensures AllDigits(n.whole + n.fraction)
    ensures var digits := DigitsValue(n.whole + n.fraction) as real;
      Moved(NumberValue(n), |n.fraction|, false) == if n.negative then -digits else digits
  {
    DigitsLaws(n.whole, n.fraction);
    FractionMeans(n.fraction);
    MovedSum(DigitsValue(n.whole) as real, FractionValue(n.fraction), |n.fraction|);
    MovedSum(Magnitude(n), 0.0, |n.fraction|);
  }

  /** The exponent: the value without it times that power of ten; a negative one divides. */
  lemma ExponentMeans(n: Number)
    requires ValidNumber(n) && n.exponent.Some?
    ensures var plain, k := NumberValue(n.(exponent := None)), DigitsValue(n.exponent.value.digits);
      if n.exponent.value.sign == "-" then Moved(NumberValue(n), k, false) == plain
      else NumberValue(n) == Moved(plain, k, false)
  {
    var m, k := Magnitude(n), DigitsValue(n.exponent.value.digits);
    assert Magnitude(n.(exponent := None)) == m;
    MovedSum(m, 0.0, k);
    MovedBack(m, k);
    MovedBack(-m, k);
  }

  // ---------------------------------------------------------------- integers too large for a double

  /** The least integer that rounds past the largest double. */
  const FLOAT_LIMIT: int := Power(2, 1024) - Power(2, 970)

  /** float() raises for an integer token of that size; a token with a fraction or an exponent is read as a
      double in the first place. */
  predicate Overflows(n: Number)
    requires ValidNumber(n)
  {
    n.fraction == "" && n.exponent.None? && DigitsValue(n.whole) >= FLOAT_LIMIT
  }

  /** An integer token overflows exactly when its value lies at or beyond the limit on either side. */
  lemma OverflowsIff(n: Number)
    requires ValidNumber(n)
    ensures Overflows(n)
       <==> n.fraction == "" && n.exponent.None?
            && (if n.negative then -NumberValue(n) else NumberValue(n)) >= (Power(2, 1024) - Power(2, 970)) as real
  {
    if n.fraction == "" && n.exponent.None? {
      assert NumberValue(n) == if n.negative then -(DigitsValue(n.whole) as real) else DigitsValue(n.whole) as real;
    }
  }

  function Zeros(k: nat): (s: string)
    ensures |s| == k && AllDigits(s)
  {
    if k == 0 then "" else Zeros(k - 1) + "0"
  }

  lemma {:induction false} OneAndZeros(k: nat)
    ensures AllDigits("1" + Zeros(k)) && DigitsValue("1" + Zeros(k)) == Power(10, k)
  {
    if k == 0 {
      assert "1" + Zeros(0) == "1" && "1"[..0] == "";
    } else {
      OneAndZeros(k - 1);
      assert ("1" + Zeros(k))[..k] == "1" + Zeros(k - 1) && ("1" + Zeros(k))[k] == '0';
    }
  }

  lemma {:induction false} TenBeatsEight(k: nat)
    ensures Power(10, k) >= Power(2, 3 * k) >= 1
  {
    if k == 0 {
    } else {
      TenBeatsEight(k - 1);
      assert Power(2, 3 * k) == 2 * Power(2, 3 * k - 1) == 4 * Power(2, 3 * k - 2) == 8 * Power(2, 3 * k - 3);
    }
  }

  lemma {:induction false} PowerGrows(j: nat, k: nat)
    requires j <= k
    ensures Power(2, j) <= Power(2, k)
  {
    if j == k {
    } else {
      PowerGrows(j, k - 1);
    }
  }

  /** Such integers: a one followed by 342 zeros or more. */
  lemma LongStampOverflows(k: nat)
    requires k >= 342
    ensures ValidNumber(Number(false, "1" + Zeros(k), "", None)) && Overflows(Number(false, "1" + Zeros(k), "", None))
  {
    OneAndZeros(k);
    TenBeatsEight(k);
    PowerGrows(1024, 3 * k);
  }

  // ---------------------------------------------------------------- the message schema

  /** Looking up a key in a decoded object: the last duplicate wins. */
  function Lookup(members: seq<(string, Value)>, key: string): Option<Value> {
    if members == [] then None
    else if members[|members| - 1].0 == key then Some(members[|members| - 1].1)
    else Lookup(members[..|members| - 1], key)
  }

  predicate IsNumber(v: Option<Value>, x: real) {
    v.Some? && v.value.JNumber? && ValidNumber(v.value.num) && NumberValue(v.value.num) == x
  }

  predicate IsText(v: Option<Value>, minLength: nat) {
    v.Some? && v.value.JString? && |v.value.s| >= minLength
  }

  /** One element of "values": an object with key and value, or a two-element array. */
  predicate EntryAccepted(v: Value) {
    match v
    case JObject(members) => IsText(Lookup(members, "key"), 1) && Lookup(members, "value").Some?
    case JArray(items) => |items| == 2 && IsText(Some(items[0]), 1)
    case _ => false
  }

  function LevelOf(v: Option<Value>): Option<int> {
    if IsNumber(v, 0.0) then Some(0)
    else if IsNumber(v, 1.0) then Some(1)
    else if IsNumber(v, 2.0) then Some(2)
    else if IsNumber(v, 3.0) then Some(3)
    else None
  }

  /** The accept condition of the JSON schema. */
  predicate SchemaAccepts(raw: Value) {
    raw.JObject?
    && var m := raw.members;
       && IsNumber(Lookup(m, "v"), 1.0)
       && IsText(Lookup(m, "node"), 1)
       && IsText(Lookup(m, "hw_id"), 0)
       && Lookup(m, "stamp").Some? && Lookup(m, "stamp").value.JNumber? && ValidNumber(Lookup(m, "stamp").value.num)
       && LevelOf(Lookup(m, "level")).Some?
       && IsText(Lookup(m, "msg"), 0)
       && Lookup(m, "values").Some? && Lookup(m, "values").value.JArray?
       && forall i | 0 <= i < |Lookup(m, "values").value.items| :: EntryAccepted(Lookup(m, "values").value.items[i])
  }

  function EntryOf(v: Value): Entry
    requires EntryAccepted(v)
  {
    match v
    case JObject(members) => Entry(Lookup(members, "key").value.s, Lookup(members, "value").value)
    case JArray(items) => Entry(items[0].s, items[1])
  }

  /** A validator walking the schema: the type, the required keys, then every property. */
  method Validate(raw: Value) returns (ok: bool)
    ensures ok <==> SchemaAccepts(raw)
  {
    if !raw.JObject? {
      return false;
    }
    var m := raw.members;
    var v, node, hwId, stamp := Lookup(m, "v"), Lookup(m, "node"), Lookup(m, "hw_id"), Lookup(m, "stamp");
    var level, msg, values := Lookup(m, "level"), Lookup(m, "msg"), Lookup(m, "values");
    if v.None? || node.None? || hwId.None? || stamp.None? || level.None? || msg.None? || values.None? {
      return false;
    }
    if !v.value.JNumber? || !ValidNumber(v.value.num) || NumberValue(v.value.num) != 1.0 {
      return false;
    }
    if !node.value.JString? || node.value.s == "" || !hwId.value.JString? || !msg.value.JString? {
      return false;
    }
    if !stamp.value.JNumber? || !ValidNumber(stamp.value.num) || !values.value.JArray? {
      return false;
    }
    if !level.value.JNumber? || !ValidNumber(level.value.num)
       || NumberValue(level.value.num) !in {0.0, 1.0, 2.0, 3.0}
    {
      return false;
    }
    ok := ValidateEntries(values.value.items);
  }

  /** The two shapes of an element of "values". */
  method ValidateEntries(items: seq<Value>) returns (ok: bool)
    ensures ok <==> forall i | 0 <= i < |items| :: EntryAccepted(items[i])
  {
    for i := 0 to |items|
      invariant forall k | 0 <= k < i :: EntryAccepted(items[k])
    {
      var shaped := false;
      if items[i].JObject? {
        var key := Lookup(items[i].members, "key");
        shaped := key.Some? && key.value.JString? && key.value.s != "" && Lookup(items[i].members, "value").Some?;
      } else if items[i].JArray? && |items[i].items| == 2 {
        shaped := items[i].items[0].JString? && items[i].items[0].s != "";
      }
      if !shaped {
        return false;
      }
    }
    ok := true;
  }

  /** A normalised message, a refusal that the caller logs, or an error that nobody catches. */
  datatype Normalization = Normalized(message: Message) | Refused | Raised

  /** Validation and normalisation. The checks behind the schema never refuse what the schema accepts: a
      payload is refused exactly when the schema refuses it, and an accepted one is normalised unless its
      stamp is an integer too large for a double. */
  method ValidateAndNormalize(raw: Value) returns (r: Normalization)
    ensures r.Refused? <==> !SchemaAccepts(raw)
    ensures r.Raised? <==> SchemaAccepts(raw) && Overflows(Lookup(raw.members, "stamp").value.num)
    ensures r.Normalized? ==>
              var m, w := raw.members, r.message;
              && w.v == 1
              && Lookup(m, "node") == Some(JString(w.node)) && w.node != ""
              && Lookup(m, "hw_id") == Some(JString(w.hwId))
              && w.stamp == NumberValue(Lookup(m, "stamp").value.num)
              && 0 <= w.level <= 3 && w.level as real == NumberValue(Lookup(m, "level").value.num)
              && Lookup(m, "msg") == Some(JString(w.msg))
              && |w.values| == |Lookup(m, "values").value.items|
              && forall i | 0 <= i < |w.values| :: w.values[i] == EntryOf(Lookup(m, "values").value.items[i])
  {
    var valid := Validate(raw);
    if !valid {
      return Refused;
    }
    var m := raw.members;
    var items := Lookup(m, "values").value.items;
    var normalized: seq<Entry> := [];
    for i := 0 to |items|
      invariant |normalized| == i
      invariant forall k | 0 <= k < i :: normalized[k] == EntryOf(items[k])
    {
      var entry := items[i];
      assert EntryAccepted(entry);
      var key: Value;
      var value: Value;
      if entry.JObject? {
        if Lookup(entry.members, "key").None? || Lookup(entry.members, "value").None? {
          return Refused;
        }
        key, value := Lookup(entry.members, "key").value, Lookup(entry.members, "value").value;
      } else if entry.JArray? && |entry.items| == 2 {
        key, value := entry.items[0], entry.items[1];
      } else {
        return Refused;
      }
      if !key.JString? || key.s == "" {
        return Refused;
      }
      normalized := normalized + [Entry(key.s, value)];
    }
    if Overflows(Lookup(m, "stamp").value.num) {
      return Raised;
    }
    r := Normalized(Message(
      1,
      Lookup(m, "node").value.s,
      Lookup(m, "hw_id").value.s,
      NumberValue(Lookup(m, "stamp").value.num),
      LevelOf(Lookup(m, "level")).value,
      Lookup(m, "msg").value.s,
      normalized));
  }
}
