/**
  print_escaped_json_string (util/raw_json.h), with a string decoder following section 7 of
  RFC 8259 as its partner. Characters are bytes.
 */
module RawJson {
  import opened Bits
  import opened Common
  import opened Memory

  const QUOTE: byte := 0x22
  const BACKSLASH: byte := 0x5C

  // ----- the three character classes -----

  /** json_printable_characters */
  predicate Plain(c: byte) {
    0x20 <= c <= 0x7E && c != QUOTE && c != BACKSLASH
  }

  /** json_backslash_escape_characters */
  predicate ShortEscaped(c: byte) {
    c == QUOTE || c == BACKSLASH || c == 0x08 || c == 0x0C || c == 0x0A || c == 0x0D || c == 0x09
  }

  /** Everything else is escaped as \u00xx. */
  predicate HexEscaped(c: byte) {
    !Plain(c) && !ShortEscaped(c)
  }

  /** The character after the backslash. */
  function ShortLetter(c: byte): byte {
    if c == 0x08 then 0x62        // b
    else if c == 0x0C then 0x66   // f
    else if c == 0x0A then 0x6E   // n
    else if c == 0x0D then 0x72   // r
    else if c == 0x09 then 0x74   // t
    else c
  }

  /** A lower-case hexadecimal digit. */
  function HexDigit(d: nat): (c: byte)
    requires d < 16
  {
    if d < 10 then 0x30 + d else 0x61 + (d - 10)
  }

  function EscapeByte(c: byte): (r: bytes)
    ensures |r| > 0
  {
    if Plain(c) then [c]
    else if ShortEscaped(c) then [BACKSLASH, ShortLetter(c)]
    else [BACKSLASH, 0x75, 0x30, 0x30, HexDigit(c / 16), HexDigit(c % 16)]
  }

  /** The escaped text of a whole value, one byte at a time. */
  function Escape(v: bytes): (r: bytes) {
    if v == [] then [] else EscapeByte(v[0]) + Escape(v[1..])
  }

  lemma {:induction false} EscapeConcat(v: bytes, w: bytes)
    ensures Escape(v + w) == Escape(v) + Escape(w)
  {
    hide EscapeByte;
    if v == [] {
      assert v + w == w;
    } else {
      assert (v + w)[1..] == v[1..] + w;
      EscapeConcat(v[1..], w);
    }
  }

  lemma {:induction false} EscapePlain(v: bytes)
    requires forall i :: 0 <= i < |v| ==> Plain(v[i])
    ensures Escape(v) == v
  {
    if v == [] {
    } else {
      EscapePlain(v[1..]);
    }
  }

  // ----- the printer -----

  /** Length of the longest prefix in a class: find_first_not_of, or the size when there is none. */
  method PrefixIn(v: bytes, class_: byte -> bool) returns (n: nat)
    ensures n <= |v| && (forall i :: 0 <= i < n ==> class_(v[i])) && (n < |v| ==> !class_(v[n]))
  {
    n := 0;
    while n < |v| && class_(v[n])
      invariant n <= |v| && forall i :: 0 <= i < n ==> class_(v[i])
    {
      n := n + 1;
    }
  }

  /** Escapes a run of characters one by one. */
  method EscapeRun(v: bytes) returns (out: bytes)
    ensures out == Escape(v)
  {
    hide EscapeByte;
    out := [];
    assert v[..0] == [];
    for i := 0 to |v|
      invariant out == Escape(v[..i])
    {
      assert v[..i + 1] == v[..i] + [v[i]];
      EscapeConcat(v[..i], [v[i]]);
      assert [v[i]][1..] == [];
      out := out + EscapeByte(v[i]);
    }
    assert v[..|v|] == v;
  }

  /** One turn of the printer's loop: a run of each class. It takes at least one character. */
  method EscapeTurn(v: bytes) returns (text: bytes, n: nat)
    requires v != []
    ensures 0 < n <= |v| && text == Escape(v[..n])
  {
    hide Escape, EscapeByte;
    var n1 := PrefixIn(v, Plain);
    EscapePlain(v[..n1]);
    var rest1 := v[n1..];
    var n2 := PrefixIn(rest1, ShortEscaped);
    var run2 := EscapeRun(rest1[..n2]);
    var rest2 := rest1[n2..];
    var n3 := PrefixIn(rest2, HexEscaped);
    var run3 := EscapeRun(rest2[..n3]);
    n := n1 + n2 + n3;
    assert n > 0 by { if n1 == 0 && n2 == 0 { assert rest2[0] == v[0]; } }
    JoinRuns(v[..n1], rest1[..n2], rest2[..n3]);
    assert v[..n] == v[..n1] + rest1[..n2] + rest2[..n3];
    text := v[..n1] + run2 + run3;
  }

  lemma JoinRuns(p1: bytes, p2: bytes, p3: bytes)
    ensures Escape(p1 + p2 + p3) == Escape(p1) + Escape(p2) + Escape(p3)
  {
    hide Escape;
    EscapeConcat(p1 + p2, p3);
    EscapeConcat(p1, p2);
  }

  /** The printer's loop. */
  method EscapeAll(value: bytes) returns (out: bytes)
    ensures out == Escape(value)
  {
    hide Escape, EscapeByte;
    out := [];
    var v := value;
    ghost var done: nat := 0;
    assert Escape(value[..0]) == [] by { EscapeNothing(); assert value[..0] == []; }
    while v != []
      invariant done <= |value| && v == value[done..]
      invariant out == Escape(value[..done])
      decreases |v|
    {
      var text, n := EscapeTurn(v);
      assert value[..done + n] == value[..done] + v[..n];
      EscapeConcat(value[..done], v[..n]);
      out := out + text;
      v := v[n..];
      done := done + n;
    }
    assert value[..done] == value;
  }

  /** The whole printer, with or without the surrounding quotes. */
  method PrintEscaped(value: bytes, wrap: bool) returns (out: bytes)
    ensures out == (if wrap then [QUOTE] + Escape(value) + [QUOTE] else Escape(value))
  {
    hide Escape;
    out := EscapeAll(value);
    if wrap { out := [QUOTE] + out + [QUOTE]; }
  }

  lemma EscapeNothing()
    ensures Escape([]) == []
  {
  }

  // ----- what is printed is printable -----

  lemma {:induction false} EscapedIsPrintable(v: bytes, i: nat)
    requires i < |Escape(v)|
    ensures 0x20 <= Escape(v)[i] <= 0x7E
  {
    var first := EscapeByte(v[0]);
    if i < |first| {
    } else {
      EscapedIsPrintable(v[1..], i - |first|);
    }
  }

  // ----- section 7 of RFC 8259, backwards -----

  function HexValue(c: byte): Option<nat> {
    if 0x30 <= c <= 0x39 then Some(c - 0x30)
    else if 0x41 <= c <= 0x46 then Some(c - 0x41 + 10)
    else if 0x61 <= c <= 0x66 then Some(c - 0x61 + 10)
    else None
  }

  /** The code unit of \uXXXX at the start of `s`. */
  function CodeUnit(s: bytes): Option<nat> {
    if |s| < 6 || s[0] != BACKSLASH || s[1] != 0x75 then None
    else
      match (HexValue(s[2]), HexValue(s[3]), HexValue(s[4]), HexValue(s[5]))
      case (Some(a), Some(b), Some(c), Some(d)) => Some(0x1000 * a + 0x100 * b + 0x10 * c + d)
      case _ => None
  }

  function ShortValue(c: byte): Option<nat> {
    if c == QUOTE || c == BACKSLASH || c == 0x2F then Some(c)
    else if c == 0x62 then Some(0x08)
    else if c == 0x66 then Some(0x0C)
    else if c == 0x6E then Some(0x0A)
    else if c == 0x72 then Some(0x0D)
    else if c == 0x74 then Some(0x09)
    else None
  }

  /** One code point and the number of characters it took; surrogates must come in pairs. */
  function DecodeOne(s: bytes): (r: Option<(nat, nat)>)
    requires s != []
    ensures r.Some? ==> 0 < r.value.1 <= |s|
  {
    if s[0] != BACKSLASH then
      (if 0x20 <= s[0] < 0x80 && s[0] != QUOTE then Some((s[0], 1)) else None)
    else if |s| >= 2 && s[1] != 0x75 then
      (match ShortValue(s[1]) case Some(x) => Some((x, 2)) case None => None)
    else
      match CodeUnit(s)
      case None => None
      case Some(u) =>
        if 0xD800 <= u < 0xDC00 then
          (match CodeUnit(s[6..])
           case Some(l) => if 0xDC00 <= l < 0xE000
                           then Some((0x1_0000 + (u - 0xD800) * 0x400 + (l - 0xDC00), 12)) else None
           case None => None)
        else if 0xDC00 <= u < 0xE000 then None
        else Some((u, 6))
  }

  /** The code points of a string body, or None when it is not one. */
  function Decode(s: bytes): Option<seq<int>>
    decreases |s|
  {
    if s == [] then Some([]) else
      match DecodeOne(s)
      case None => None
      case Some((x, n)) =>
        match Decode(s[n..])
        case None => None
        case Some(rest) => Some([x] + rest)
  }

  lemma HexRoundTrip(d: nat)
    requires d < 16
    ensures HexValue(HexDigit(d)) == Some(d)
  {
  }

  lemma DecodeFirst(c: byte, rest: bytes)
    ensures DecodeOne(EscapeByte(c) + rest) == Some((c as nat, |EscapeByte(c)|))
  {
    hide HexDigit, HexValue;
    var s := EscapeByte(c) + rest;
    HexRoundTrip(0);
    HexRoundTrip(c / 16);
    HexRoundTrip(c % 16);
    assert HexDigit(0) == 0x30 by { HexZero(); }
    if HexEscaped(c) { assert CodeUnit(s) == Some(c); }
  }

  lemma HexZero()
    ensures HexDigit(0) == 0x30
  {
  }

  /** Decoding the escaped text gives back one code point per byte, with the byte's value. */
  lemma {:induction false} RoundTrip(v: bytes)
    ensures Decode(Escape(v)) == Some(v)
  {
    hide DecodeOne, EscapeByte;
    if v == [] {
    } else {
      var first, rest := EscapeByte(v[0]), Escape(v[1..]);
      DecodeFirst(v[0], rest);
      assert (first + rest)[|first|..] == rest;
      RoundTrip(v[1..]);
      assert [v[0]] + v[1..] == v;
    }
  }
}
