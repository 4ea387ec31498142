/** Percent-encoding of byte strings, with `+` for a space (section 2.1 of RFC 3986). */
module UrlEncodes {
  import opened Bytes

  const SPACE: Byte := 32
  const PERCENT: Byte := 37
  const PLUS: Byte := 43

  datatype Decoded = Done(bytes: seq<Byte>) | Failed

  predicate IsAlnum(c: Byte) {
    48 <= c <= 57 || 65 <= c <= 90 || 97 <= c <= 122
  }

  /** `-`, `_`, `.` and `~` besides letters and digits. */
  predicate Unreserved(c: Byte) {
    IsAlnum(c) || c == 45 || c == 95 || c == 46 || c == 126
  }

  function ToHex(x: nat): Byte
    requires x < 16
  {
    if x > 9 then x + 55 else x + 48
  }

  /** Any letter counts as a digit, with values up to 35. */
  function FromHex(x: Byte): (y: Byte)
    requires IsAlnum(x)
  {
    if 65 <= x <= 90 then x - 65 + 10
    else if 97 <= x <= 122 then x - 97 + 10
    else x - 48
  }

  predicate Literal(c: Byte, safes: seq<Byte>) {
    Unreserved(c) || c in safes
  }

  function EncodeByte(c: Byte, safes: seq<Byte>): seq<Byte> {
    if Literal(c, safes) then [c]
    else if c == SPACE then [PLUS]
    else [PERCENT, ToHex(c / 16), ToHex(c % 16)]
  }

  function Encoding(s: seq<Byte>, safes: seq<Byte>): seq<Byte> {
    if s == [] then [] else EncodeByte(s[0], safes) + Encoding(s[1..], safes)
  }

  function Then(c: Byte, d: Decoded): Decoded {
    if d.Done? then Done([c] + d.bytes) else Failed
  }

  /** The byte an escape stands for, as eight bits keep it. */
  function Escaped(high: Byte, low: Byte): Byte
    requires IsAlnum(high) && IsAlnum(low)
  {
    (FromHex(high) * 16 + FromHex(low)) % 256
  }

  /** A `%` that two letters or digits do not follow fails an assertion. */
  function Decoding(e: seq<Byte>): Decoded {
    if e == [] then Done([])
    else if e[0] == PLUS then Then(SPACE, Decoding(e[1..]))
    else if e[0] == PERCENT then
      if |e| >= 3 && IsAlnum(e[1]) && IsAlnum(e[2]) then Then(Escaped(e[1], e[2]), Decoding(e[3..]))
      else Failed
    else Then(e[0], Decoding(e[1..]))
  }

  /** The digits to the base 36, in either case; the first sixteen are the hexadecimal
      ones. */
  const UPPER: seq<Byte> := [48, 49, 50, 51, 52, 53, 54, 55, 56, 57] + seq(26, i requires 0 <= i < 26 => 65 + i)
  const LOWER: seq<Byte> := [48, 49, 50, 51, 52, 53, 54, 55, 56, 57] + seq(26, i requires 0 <= i < 26 => 97 + i)

  /** Every digit has the value of its place, whatever its case, and every letter or digit
      has a place. */
  lemma DigitValue(v: nat)
    requires v < 36
    ensures IsAlnum(UPPER[v]) && FromHex(UPPER[v]) == v
    ensures IsAlnum(LOWER[v]) && FromHex(LOWER[v]) == v
    ensures v < 16 ==> ToHex(v) == UPPER[v]
  {
  }

  lemma EveryDigit(c: Byte)
    requires IsAlnum(c)
    ensures exists v :: 0 <= v < 36 && (UPPER[v] == c || LOWER[v] == c)
  {
    var v := if 65 <= c <= 90 then c - 55 else if 97 <= c <= 122 then c - 87 else c - 48;
    assert UPPER[v] == c || LOWER[v] == c;
  }

  /** An escape stands for the byte that its two hexadecimal digits spell, in either case. */
  lemma EscapeValue(h: nat, l: nat, high: Byte, low: Byte, rest: seq<Byte>)
    requires h < 16 && l < 16
    requires (high == UPPER[h] || high == LOWER[h]) && (low == UPPER[l] || low == LOWER[l])
    ensures Decoding([PERCENT, high, low] + rest) == Then(h * 16 + l, Decoding(rest))
  {
    hide FromHex, IsAlnum, ToHex;
    DigitValue(h);
    DigitValue(l);
    EscapeFirst(high, low, rest);
    assert (h * 16 + l) % 256 == h * 16 + l;
  }

  lemma EscapeFirst(high: Byte, low: Byte, rest: seq<Byte>)
    requires IsAlnum(high) && IsAlnum(low)
    ensures Decoding([PERCENT, high, low] + rest) == Then(Escaped(high, low), Decoding(rest))
  {
    hide Escaped, IsAlnum;
    assert ([PERCENT, high, low] + rest)[3..] == rest;
  }

  /** Outside escapes `+` stands for a space and every other byte for itself. */
  lemma PlainValue(c: Byte, rest: seq<Byte>)
    requires c != PERCENT
    ensures Decoding([c] + rest) == Then(if c == PLUS then SPACE else c, Decoding(rest))
  {
    assert ([c] + rest)[1..] == rest;
  }

  /** A `%` that two letters or digits do not follow is not decoded. */
  lemma BadEscape(rest: seq<Byte>)
    requires |rest| < 2 || !IsAlnum(rest[0]) || !IsAlnum(rest[1])
    ensures Decoding([PERCENT] + rest) == Failed
  {
  }

  /** How a byte is written: unreserved and safe ones as they are, a space as `+`, and any
      other as `%` and the two upper-case digits of its value. */
  lemma EncodedByte(c: Byte, s: seq<Byte>, safes: seq<Byte>)
    ensures Encoding([c] + s, safes) ==
            (if Unreserved(c) || c in safes then [c]
             else if c == SPACE then [PLUS]
             else [PERCENT, UPPER[c / 16], UPPER[c % 16]]) + Encoding(s, safes)
  {
    DigitValue(c / 16);
    DigitValue(c % 16);
    assert ([c] + s)[1..] == s;
  }

  lemma HexRoundTrip(c: Byte)
    ensures IsAlnum(ToHex(c / 16)) && IsAlnum(ToHex(c % 16))
    ensures Escaped(ToHex(c / 16), ToHex(c % 16)) == c
  {
  }

  /** What the encoding of one byte decodes to, when it is no bare `%`. */
  lemma DecodeFirst(s: seq<Byte>, safes: seq<Byte>)
    requires s != [] && !(s[0] == PERCENT && PERCENT in safes)
    ensures Decoding(Encoding(s, safes)) ==
            Then(if s[0] == PLUS && PLUS in safes then SPACE else s[0], Decoding(Encoding(s[1..], safes)))
  {
    var c, e := s[0], Encoding(s, safes);
    if Literal(c, safes) {
      assert e[1..] == Encoding(s[1..], safes);
    } else if c == SPACE {
      assert e[1..] == Encoding(s[1..], safes);
    } else {
      HexRoundTrip(c);
      assert e[3..] == Encoding(s[1..], safes);
    }
  }

  /** An encoding starts with a letter or digit only if the text does. */
  lemma FirstAlnum(s: seq<Byte>, safes: seq<Byte>)
    ensures var e := Encoding(s, safes);
            && (e != [] && IsAlnum(e[0]) <==> s != [] && IsAlnum(s[0]))
            && (s != [] && IsAlnum(s[0]) ==> e[0] == s[0] && e[1..] == Encoding(s[1..], safes))
  {
    if s != [] {
      var c, e := s[0], Encoding(s, safes);
      assert e == EncodeByte(c, safes) + Encoding(s[1..], safes);
    }
  }

  /** A bare `%` takes the next two bytes with it, if they are letters or digits. */
  lemma DecodeBarePercent(s: seq<Byte>, safes: seq<Byte>)
    requires s != [] && s[0] == PERCENT && PERCENT in safes
    ensures Decoding(Encoding(s, safes)) ==
            if |s| >= 3 && IsAlnum(s[1]) && IsAlnum(s[2])
            then Then(Escaped(s[1], s[2]), Decoding(Encoding(s[3..], safes)))
            else Failed
  {
    var e := Encoding(s, safes);
    assert e == [PERCENT] + Encoding(s[1..], safes);
    FirstAlnum(s[1..], safes);
    if |s| >= 2 && IsAlnum(s[1]) {
      assert s[1..][1..] == s[2..] && e[2..] == Encoding(s[2..], safes);
      FirstAlnum(s[2..], safes);
      if |s| >= 3 && IsAlnum(s[2]) {
        assert s[2..][1..] == s[3..] && e[3..] == Encoding(s[3..], safes);
      }
    }
  }

  lemma {:induction false} DecodesNoLonger(s: seq<Byte>, safes: seq<Byte>)
    ensures var d := Decoding(Encoding(s, safes)); d.Done? ==> |d.bytes| <= |s|
    decreases |s|
  {
    hide Encoding, Decoding;
    if s == [] {
      DecodeNothing(safes);
    } else if s[0] == PERCENT && PERCENT in safes {
      DecodeBarePercent(s, safes);
      if |s| >= 3 {
        DecodesNoLonger(s[3..], safes);
      }
    } else {
      DecodeFirst(s, safes);
      DecodesNoLonger(s[1..], safes);
    }
  }

  lemma DecodeNothing(safes: seq<Byte>)
    ensures Decoding(Encoding([], safes)) == Done([])
  {
  }

  /** A text comes back unless it has a `+` or a `%` that was declared safe. */
  lemma {:induction false} RoundTrip(s: seq<Byte>, safes: seq<Byte>)
    ensures Decoding(Encoding(s, safes)) == Done(s) <==>
            !(PLUS in safes && PLUS in s) && !(PERCENT in safes && PERCENT in s)
    decreases |s|
  {
    hide Encoding, Decoding;
    if s == [] {
      DecodeNothing(safes);
    } else {
      assert s == [s[0]] + s[1..];
      if s[0] == PERCENT && PERCENT in safes {
        DecodeBarePercent(s, safes);
        if |s| >= 3 {
          DecodesNoLonger(s[3..], safes);
        }
      } else {
        DecodeFirst(s, safes);
        RoundTrip(s[1..], safes);
      }
    }
  }

  /** Every byte of an encoding is unreserved, declared safe, a `%` or a `+`. */
  lemma {:induction false} Alphabet(s: seq<Byte>, safes: seq<Byte>)
    ensures forall c :: c in Encoding(s, safes) ==> Literal(c, safes) || c == PERCENT || c == PLUS
  {
    if s != [] {
      Alphabet(s[1..], safes);
    }
  }

  // ---------- recognising an encoding ----------

  predicate GoodChar(c: Byte) {
    65 <= c <= 90 || 48 <= c <= 57
  }

  /** Two upper-case letters or digits follow every `%`. */
  ghost predicate WellEscaped(b: seq<Byte>) {
    forall i :: 0 <= i < |b| && b[i] == PERCENT ==> i + 2 < |b| && GoodChar(b[i + 1]) && GoodChar(b[i + 2])
  }

  lemma WellEscapedRest(b: seq<Byte>)
    requires b != []
    ensures WellEscaped(b) <==>
            && (b[0] == PERCENT ==> |b| > 2 && GoodChar(b[1]) && GoodChar(b[2]))
            && WellEscaped(b[1..])
  {
    var t := b[1..];
    assert forall i :: 0 <= i < |t| ==> t[i] == b[i + 1];
    if b[0] == PERCENT ==> |b| > 2 && GoodChar(b[1]) && GoodChar(b[2]) {
      if WellEscaped(t) {
        forall i | 0 <= i < |b| && b[i] == PERCENT
          ensures i + 2 < |b| && GoodChar(b[i + 1]) && GoodChar(b[i + 2])
        {
          if i > 0 {
            assert t[i - 1] == PERCENT;
          }
        }
      }
      if WellEscaped(b) {
        forall i | 0 <= i < |t| && t[i] == PERCENT
          ensures i + 2 < |t| && GoodChar(t[i + 1]) && GoodChar(t[i + 2])
        {
          assert b[i + 1] == PERCENT;
        }
      }
    }
  }

  lemma HexIsGood(c: Byte)
    ensures GoodChar(ToHex(c / 16)) && GoodChar(ToHex(c % 16))
  {
  }

  /** An escape that the encoder wrote is well formed. */
  lemma EscapeKeeps(h: Byte, l: Byte, e: seq<Byte>)
    requires GoodChar(h) && GoodChar(l)
    ensures WellEscaped([PERCENT, h, l] + e) <==> WellEscaped(e)
  {
    var b := [PERCENT, h, l] + e;
    WellEscapedRest(b);
    WellEscapedRest(b[1..]);
    WellEscapedRest(b[2..]);
    assert b[1..][1..] == b[2..] && b[2..][1..] == e;
  }

  /** Whether the byte after a bare `%` is a good one can be read off the text. */
  lemma BarePercent(s: seq<Byte>, safes: seq<Byte>)
    ensures var e := Encoding(s, safes);
            |e| > 1 && GoodChar(e[0]) && GoodChar(e[1]) <==> |s| > 1 && GoodChar(s[0]) && GoodChar(s[1])
  {
    FirstAlnum(s, safes);
    if s != [] && IsAlnum(s[0]) {
      FirstAlnum(s[1..], safes);
    }
  }

  /** An encoding is recognised, unless `%` was declared safe and the text itself would
      not be. */
  lemma {:induction false} EncodingIsWellEscaped(s: seq<Byte>, safes: seq<Byte>)
    ensures WellEscaped(Encoding(s, safes)) <==> (PERCENT in safes ==> WellEscaped(s))
  {
    hide WellEscaped;
    if s == [] {
      NothingIsWellEscaped();
    } else {
      var c, rest := s[0], Encoding(s[1..], safes);
      EncodingIsWellEscaped(s[1..], safes);
      WellEscapedRest(s);
      var e := Encoding(s, safes);
      assert e == EncodeByte(c, safes) + rest;
      if Literal(c, safes) || c == SPACE {
        WellEscapedRest(e);
        assert e[1..] == rest;
        BarePercent(s[1..], safes);
      } else {
        HexIsGood(c);
        EscapeKeeps(ToHex(c / 16), ToHex(c % 16), rest);
      }
    }
  }

  lemma NothingIsWellEscaped()
    ensures WellEscaped([])
  {
  }

  // ---------- the operations ----------

  lemma EncodingStart(str: seq<Byte>, safes: seq<Byte>)
    ensures Encoding(str[..0], safes) == []
  {
  }

  lemma EncodingCons(c: Byte, s: seq<Byte>, safes: seq<Byte>)
    ensures Encoding([c] + s, safes) == EncodeByte(c, safes) + Encoding(s, safes)
  {
    assert ([c] + s)[1..] == s;
  }

  lemma {:induction false} EncodingConcat(s: seq<Byte>, t: seq<Byte>, safes: seq<Byte>)
    ensures Encoding(s + t, safes) == Encoding(s, safes) + Encoding(t, safes)
  {
    hide Encoding, EncodeByte;
    if s == [] {
      EncodingStart(s, safes);
      assert s + t == t && s == s[..0];
    } else {
      var c, rest := s[0], s[1..];
      EncodingConcat(rest, t, safes);
      assert s == [c] + rest && s + t == [c] + (rest + t);
      EncodingCons(c, rest, safes);
      EncodingCons(c, rest + t, safes);
    }
  }

  lemma EncodingNext(str: seq<Byte>, i: nat, safes: seq<Byte>)
    requires i < |str|
    ensures var c := str[i];
            Encoding(str[..i + 1], safes) ==
            if Literal(c, safes) then Encoding(str[..i], safes) + [c]
            else if c == SPACE then Encoding(str[..i], safes) + [PLUS]
            else Encoding(str[..i], safes) + [PERCENT] + [ToHex(c / 16)] + [ToHex(c % 16)]
  {
    assert str[..i + 1] == str[..i] + [str[i]];
    EncodingConcat(str[..i], [str[i]], safes);
    assert Encoding([str[i]], safes) == EncodeByte(str[i], safes);
  }

  method Encode(str: seq<Byte>, safes: seq<Byte>) returns (dst: seq<Byte>)
    ensures dst == Encoding(str, safes)
  {
    hide Encoding;
    dst := [];
    EncodingStart(str, safes);
    for i := 0 to |str|
      invariant dst == Encoding(str[..i], safes)
    {
      var c := str[i];
      EncodingNext(str, i, safes);
      if IsAlnum(c) || c == 45 || c == 95 || c == 46 || c == 126 || c in safes {
        dst := dst + [c];
      } else if c == SPACE {
        dst := dst + [PLUS];
      } else {
        dst := dst + [PERCENT];
        dst := dst + [ToHex(c / 16)];
        dst := dst + [ToHex(c % 16)];
      }
    }
    assert str[..|str|] == str;
  }

  /** What a decoder that has produced `dst` ends with. */
  function After(dst: seq<Byte>, d: Decoded): Decoded {
    if d.Done? then Done(dst + d.bytes) else Failed
  }

  lemma DecodingStart(str: seq<Byte>)
    ensures After([], Decoding(str[0..])) == Decoding(str)
  {
    assert str[0..] == str;
  }

  lemma DecodingEnd(str: seq<Byte>, dst: seq<Byte>)
    ensures After(dst, Decoding(str[|str|..])) == Done(dst)
  {
  }

  /** One turn of the decoder at `i`. */
  lemma DecodingNext(str: seq<Byte>, i: nat, dst: seq<Byte>)
    requires i < |str|
    ensures var c := str[i];
            After(dst, Decoding(str[i..])) ==
            if c == PLUS then After(dst + [SPACE], Decoding(str[i + 1..]))
            else if c != PERCENT then After(dst + [c], Decoding(str[i + 1..]))
            else if i + 2 < |str| && IsAlnum(str[i + 1]) && IsAlnum(str[i + 2])
            then After(dst + [Escaped(str[i + 1], str[i + 2])], Decoding(str[i + 3..]))
            else Failed
  {
    var rest := str[i..];
    assert rest[1..] == str[i + 1..];
    if i + 2 < |str| {
      assert rest[3..] == str[i + 3..];
      assert rest[1] == str[i + 1] && rest[2] == str[i + 2];
    }
  }

  method Decode(str: seq<Byte>) returns (result: Decoded)
    ensures result == Decoding(str)
  {
    hide Decoding, After;
    var dst: seq<Byte> := [];
    var i := 0;
    DecodingStart(str);
    while i < |str|
      invariant 0 <= i <= |str|
      invariant After(dst, Decoding(str[i..])) == Decoding(str)
    {
      var c := str[i];
      DecodingNext(str, i, dst);
      if c == PLUS {
        dst := dst + [SPACE];
      } else if c == PERCENT {
        if !(i + 2 < |str|) {
          return Failed;
        }
        i := i + 1;
        if !IsAlnum(str[i]) {
          return Failed;
        }
        var high: int := FromHex(str[i]);
        i := i + 1;
        if !IsAlnum(str[i]) {
          return Failed;
        }
        var low: int := FromHex(str[i]);
        dst := dst + [(high * 16 + low) % 256];
      } else {
        dst := dst + [c];
      }
      i := i + 1;
    }
    DecodingEnd(str, dst);
    return Done(dst);
  }

  /** Shorter strings are read outside their bounds. */
  method IsUrlEncode(str: seq<Byte>) returns (good: bool)
    requires |str| >= 2
    ensures good <==> WellEscaped(str)
  {
    var len := |str|;
    if str[len - 2] == PERCENT || str[len - 1] == PERCENT {
      return false;
    }
    for i := 0 to len
      invariant forall j :: 0 <= j < i && str[j] == PERCENT ==>
                  j + 2 < len && GoodChar(str[j + 1]) && GoodChar(str[j + 2])
    {
      if str[i] == PERCENT {
        if !GoodChar(str[i + 1]) || !GoodChar(str[i + 2]) {
          return false;
        }
      }
    }
    return true;
  }
}
