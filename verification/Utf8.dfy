/** Strict UTF-8 decoding (section 3 of RFC 3629). A byte is a character below 0x100. */
module Utf8 {
  import opened JsonText
  import opened Options

  predicate Ascii(c: char) { c < 128 as char }

  predicate AllAscii(s: string) { forall i | 0 <= i < |s| :: Ascii(s[i]) }

  predicate Continuation(c: char) { 0x80 <= c as int < 0xC0 }

  /** The number of bytes a lead byte announces; 0 for a byte that starts no character. */
  function Announced(c: char): (n: nat)
    ensures n <= 4 && (n == 1 <==> Ascii(c)) && (n > 0 ==> !Continuation(c))
  {
    var b := c as int;
    if b < 0x80 then 1
    else if 0xC2 <= b < 0xE0 then 2
    else if 0xE0 <= b < 0xF0 then 3
    else if 0xF0 <= b < 0xF5 then 4
    else 0
  }

  function Six(c: char): (n: nat)
    requires Continuation(c)
    ensures n < 64
  {
    c as int - 0x80
  }

  /** The character of one complete sequence; overlong forms, surrogates and values past 0x10FFFF are refused. */
  function CharOf(u: string): (r: Option<char>)
    requires u != "" && |u| == Announced(u[0])
    requires forall i | 0 < i < |u| :: Continuation(u[i])
  {
    var b := u[0] as int;
    if |u| == 1 then Some(u[0])
    else if |u| == 2 then Some(((b - 0xC0) * 64 + Six(u[1])) as char)
    else if |u| == 3 then
      var n := ((b - 0xE0) * 64 + Six(u[1])) * 64 + Six(u[2]);
      if n < 0x800 || 0xD800 <= n < 0xE000 then None else Some(n as char)
    else
      var n := (((b - 0xF0) * 64 + Six(u[1])) * 64 + Six(u[2])) * 64 + Six(u[3]);
      if n < 0x1_0000 || n >= 0x11_0000 then None else Some(n as char)
  }

  /** The first sequence of some bytes is complete. */
  predicate Complete(s: string) {
    s != "" && 0 < Announced(s[0]) <= |s| && forall i | 0 < i < Announced(s[0]) :: Continuation(s[i])
  }

  function Decode(s: string): (r: Option<string>)
    decreases |s|
  {
    if s == "" then Some("")
    else if !Complete(s) then None
    else
      var n := Announced(s[0]);
      Prefixed(CharOf(s[..n]), Decode(s[n..]))
  }

  function Prefixed(c: Option<char>, r: Option<string>): Option<string> {
    if c.None? || r.None? then None else Some([c.value] + r.value)
  }

  function Both(a: Option<string>, b: Option<string>): Option<string> {
    if a.None? || b.None? then None else Some(a.value + b.value)
  }

  lemma AsciiConcat(a: string, b: string)
    requires AllAscii(a) && AllAscii(b)
    ensures AllAscii(a + b)
  {}

  lemma {:induction false} DecodeAscii(s: string)
    requires AllAscii(s)
    ensures Decode(s) == Some(s)
  {
    if s == "" {
    } else {
      DecodeAscii(s[1..]);
      assert s == [s[0]] + s[1..];
    }
  }

  /** Bytes decode piece by piece, as long as the first piece decodes or the second starts no continuation. */
  lemma {:induction false} DecodeConcat(a: string, b: string)
    requires Decode(a).Some? || b == "" || Ascii(b[0])
    ensures Decode(a + b) == Both(Decode(a), Decode(b))
    decreases |a|
  {
    if a == "" {
      assert a + b == b;
      assert Decode(b).Some? ==> "" + Decode(b).value == Decode(b).value;
    } else if !Complete(a) {
      Incomplete(a, b);
    } else {
      var n := Announced(a[0]);
      assert (a + b)[..n] == a[..n] && (a + b)[n..] == a[n..] + b;
      if CharOf(a[..n]).Some? {
        DecodeConcat(a[n..], b);
        PrefixedBoth(CharOf(a[..n]).value, Decode(a[n..]), Decode(b));
      }
    }
  }

  lemma PrefixedBoth(c: char, a: Option<string>, b: Option<string>)
    ensures Prefixed(Some(c), Both(a, b)) == Both(Prefixed(Some(c), a), b)
  {
    if a.Some? && b.Some? {
      assert [c] + (a.value + b.value) == [c] + a.value + b.value;
    }
  }

  /** A sequence cut short is not completed by a byte that continues nothing. */
  lemma Incomplete(a: string, b: string)
    requires a != "" && !Complete(a) && (b == "" || Ascii(b[0]))
    ensures !Complete(a + b)
  {
    var n := Announced(a[0]);
    if n > |a| && b != "" {
      assert (a + b)[|a|] == b[0];
    } else if 0 < n <= |a| {
      var i :| 0 < i < n && !Continuation(a[i]);
      assert (a + b)[i] == a[i];
    }
  }

  // ---------------------------------------------------------------- encoding

  function Trail(n: nat): (c: char)
    ensures Continuation(c) && Six(c) == n % 64
  {
    (0x80 + n % 64) as char
  }

  function EncodeChar(c: char): (u: string)
    ensures u != "" && |u| == Announced(u[0])
    ensures forall i | 0 < i < |u| :: Continuation(u[i])
  {
    var n := c as int;
    if n < 0x80 then [c]
    else if n < 0x800 then [(0xC0 + n / 64) as char, Trail(n)]
    else if n < 0x1_0000 then [(0xE0 + n / 4096) as char, Trail(n / 64), Trail(n)]
    else [(0xF0 + n / 262144) as char, Trail(n / 4096), Trail(n / 64), Trail(n)]
  }

  function Encode(s: string): string {
    if s == "" then "" else EncodeChar(s[0]) + Encode(s[1..])
  }

  /** A number in base 64, most significant digit first. */
  function Packed(a: nat, b: nat): nat { a * 64 + b }

  lemma Unpacked(a: nat, b: nat)
    requires b < 64
    ensures Packed(a, b) / 64 == a && Packed(a, b) % 64 == b
  {}

  lemma EncodedChar(c: char)
    ensures CharOf(EncodeChar(c)) == Some(c)
  {
    var n := c as int;
    assert n / 4096 == n / 64 / 64 && n / 262144 == n / 64 / 64 / 64;
  }

  lemma DecodedChar(u: string)
    requires u != "" && |u| == Announced(u[0]) && forall i | 0 < i < |u| :: Continuation(u[i])
    requires CharOf(u).Some?
    ensures EncodeChar(CharOf(u).value) == u
  {
    if |u| == 2 {
      Decoded2(u[0] as int - 0xC0, u);
    } else if |u| == 3 {
      Decoded3(u[0] as int - 0xE0, u);
    } else if |u| == 4 {
      Decoded4(u[0] as int - 0xF0, u);
    }
  }

  lemma Decoded2(a: nat, u: string)
    requires |u| == 2 && u[0] as int == 0xC0 + a && 2 <= a < 32 && Continuation(u[1])
    ensures EncodeChar(Packed(a, Six(u[1])) as char) == u
  {
    Unpacked(a, Six(u[1]));
  }

  lemma Decoded3(a: nat, u: string)
    requires |u| == 3 && u[0] as int == 0xE0 + a && a < 16 && Continuation(u[1]) && Continuation(u[2])
    ensures var n := Packed(Packed(a, Six(u[1])), Six(u[2]));
      0x800 <= n && !(0xD800 <= n < 0xE000) ==> EncodeChar(n as char) == u
  {
    var m := Packed(a, Six(u[1]));
    var n := Packed(m, Six(u[2]));
    Unpacked(a, Six(u[1]));
    Unpacked(m, Six(u[2]));
    assert n / 4096 == n / 64 / 64;
  }

  lemma Decoded4(a: nat, u: string)
    requires |u| == 4 && u[0] as int == 0xF0 + a && a < 5
    requires Continuation(u[1]) && Continuation(u[2]) && Continuation(u[3])
    ensures var n := Packed(Packed(Packed(a, Six(u[1])), Six(u[2])), Six(u[3]));
      0x1_0000 <= n < 0x11_0000 ==> EncodeChar(n as char) == u
  {
    var k := Packed(a, Six(u[1]));
    var m := Packed(k, Six(u[2]));
    var n := Packed(m, Six(u[3]));
    Unpacked(a, Six(u[1]));
    Unpacked(k, Six(u[2]));
    Unpacked(m, Six(u[3]));
    assert n / 4096 == n / 64 / 64 && n / 262144 == n / 64 / 64 / 64;
  }

  /** Bytes decode to a text exactly when they are the encoding of that text. */
  lemma DecodesIffEncoded(bytes: string, text: string)
    ensures Decode(bytes) == Some(text) <==> bytes == Encode(text)
  {
    DecodeEncode(text);
    if Decode(bytes) == Some(text) {
      EncodeDecode(bytes);
    }
  }

  lemma {:induction false} DecodeEncode(text: string)
    ensures Decode(Encode(text)) == Some(text)
  {
    if text == "" {
    } else {
      DecodeEncode(text[1..]);
      EncodedChar(text[0]);
      SequenceFirst(EncodeChar(text[0]), Encode(text[1..]));
      assert text == [text[0]] + text[1..];
    }
  }

  lemma EncodeHead(c: char, rest: string)
    ensures Encode([c] + rest) == EncodeChar(c) + Encode(rest)
  {
    assert ([c] + rest)[1..] == rest;
  }

  lemma EncodeFirst(u: string, rest: string, text: string)
    requires u != "" && |u| == Announced(u[0]) && forall i | 0 < i < |u| :: Continuation(u[i])
    requires CharOf(u).Some? && Encode(text) == rest
    ensures Encode([CharOf(u).value] + text) == u + rest
  {
    DecodedChar(u);
    EncodeHead(CharOf(u).value, text);
  }

  /** The first sequence of some bytes that decode, and the rest. */
  lemma FirstSequence(bytes: string) returns (u: string, rest: string)
    requires bytes != "" && Decode(bytes).Some?
    ensures bytes == u + rest && u != "" && |u| == Announced(u[0])
    ensures forall i | 0 < i < |u| :: Continuation(u[i])
    ensures CharOf(u).Some? && Decode(rest).Some?
    ensures Decode(bytes).value == [CharOf(u).value] + Decode(rest).value
  {
    var n := Announced(bytes[0]);
    u, rest := bytes[..n], bytes[n..];
  }

  lemma {:induction false} EncodeDecode(bytes: string)
    requires Decode(bytes).Some?
    ensures Encode(Decode(bytes).value) == bytes
    decreases |bytes|
  {
    if bytes == "" {
    } else {
      var u, rest := FirstSequence(bytes);
      EncodeDecode(rest);
      EncodeFirst(u, rest, Decode(rest).value);
    }
  }

  // ---------------------------------------------------------------- escapes

  lemma EscapedAscii(c: char)
    requires Ascii(c)
    ensures EscapeChar(c) != "" && AllAscii(EscapeChar(c))
  {}

  lemma {:induction false} EscapeConcat(a: string, b: string)
    ensures Escape(a + b) == Escape(a) + Escape(b)
  {
    if a == "" {
      assert a + b == b && "" + Escape(b) == Escape(b);
    } else {
      EscapeConcat(a[1..], b);
      EscapeConcatHead(a[0], a[1..], b);
      assert a == [a[0]] + a[1..];
    }
  }

  lemma EscapeConcatHead(c: char, a: string, b: string)
    requires Escape(a + b) == Escape(a) + Escape(b)
    ensures Escape([c] + a + b) == Escape([c] + a) + Escape(b)
  {
    Assoc([c], a, b);
    EscapeHead(c, a + b);
    EscapeHead(c, a);
    Assoc(EscapeChar(c), Escape(a), Escape(b));
  }

  predicate NoAscii(s: string) { forall i | 0 <= i < |s| :: !Ascii(s[i]) }

  lemma {:induction false} EscapeKeeps(s: string)
    requires NoAscii(s)
    ensures Escape(s) == s
  {
    if s == "" {
    } else {
      EscapeKeeps(s[1..]);
      assert s == [s[0]] + s[1..];
    }
  }

  /** Escaping bytes and decoding them is decoding them and escaping characters. */
  lemma {:induction false} DecodeEscape(s: string)
    ensures Decode(Escape(s)) == (var d := Decode(s); if d.None? then None else Some(Escape(d.value)))
    decreases |s|
  {
    if s == "" {
    } else if Ascii(s[0]) {
      EscapedAscii(s[0]);
      DecodeAscii(EscapeChar(s[0]));
      DecodeConcat(EscapeChar(s[0]), Escape(s[1..]));
      DecodeEscape(s[1..]);
      if Decode(s[1..]).Some? {
        EscapeHead(s[0], Decode(s[1..]).value);
      }
    } else if Complete(s) {
      var n := Announced(s[0]);
      var u, rest := s[..n], s[n..];
      assert s == u + rest;
      EscapeConcat(u, rest);
      EscapeKeeps(u);
      DecodeEscape(rest);
      SequenceFirst(u, Escape(rest));
      SequenceFirst(u, rest);
      if CharOf(u).Some? && Decode(rest).Some? {
        WideChar(u);
        EscapeHead(CharOf(u).value, Decode(rest).value);
      }
    } else {
      EscapedIncomplete(s);
    }
  }

  lemma EscapeHead(c: char, tail: string)
    ensures Escape([c] + tail) == EscapeChar(c) + Escape(tail)
  {
    assert ([c] + tail)[1..] == tail;
  }

  /** A sequence of more than one byte decodes to a character that needs no escape. */
  lemma WideChar(u: string)
    requires |u| > 1 && |u| == Announced(u[0]) && forall i | 0 < i < |u| :: Continuation(u[i])
    requires CharOf(u).Some?
    ensures EscapeChar(CharOf(u).value) == [CharOf(u).value]
  {}

  lemma SequenceFirst(u: string, rest: string)
    requires u != "" && |u| == Announced(u[0]) && forall i | 0 < i < |u| :: Continuation(u[i])
    ensures Decode(u + rest) == Prefixed(CharOf(u), Decode(rest))
  {
    assert (u + rest)[..|u|] == u && (u + rest)[|u|..] == rest;
  }

  lemma CompletePrefix(s: string, rest: string)
    requires Complete(s)
    ensures Complete(s + rest)
  {
    assert forall i | 0 <= i < |s| :: (s + rest)[i] == s[i];
  }

  /** Escaping never completes a sequence that its bytes leave incomplete. */
  lemma EscapedIncomplete(s: string)
    requires s != "" && !Ascii(s[0]) && !Complete(s)
    ensures Decode(Escape(s)).None?
  {
    var k := Wide(s);
    var wide, rest := s[..k], s[k..];
    assert s == wide + rest;
    EscapeConcat(wide, rest);
    EscapeKeeps(wide);
    if Complete(wide) {
      CompletePrefix(wide, rest);
    }
    if rest != "" {
      EscapedAscii(rest[0]);
    }
    Incomplete(wide, Escape(rest));
  }

  /** The length of the run of bytes that are not ASCII at the front. */
  function Wide(s: string): (k: nat)
    ensures k <= |s| && NoAscii(s[..k]) && (k < |s| ==> Ascii(s[k]))
    ensures s != "" && !Ascii(s[0]) ==> k > 0
  {
    if s == "" || Ascii(s[0]) then 0
    else
      var k := Wide(s[1..]);
      assert s[..k + 1] == [s[0]] + s[1..][..k];
      k + 1
  }
}
