/** Percent-decoding of path parts (section 2.1 of RFC 3986), optionally leaving
    the reserved characters of section 1.5 of RFC 6570 encoded. */
module PercentEncoding {

  import opened Strings

  predicate IsReservedChar(c: char) {
    c in {'!', '#', '$', '&', '\'', '(', ')', '*', '+', ',', '/', ':', ';', '=', '?', '@', '[', ']'}
  }

  predicate IsHexDigit(c: char) {
    ('a' <= c <= 'f') || ('A' <= c <= 'F') || ('0' <= c <= '9')
  }

  function HexDigitToInt(c: char): (x: nat)
    ensures x < 16
    ensures '0' <= c <= '9' ==> x == c as int - '0' as int
    ensures 'a' <= c <= 'f' ==> x == c as int - 'a' as int + 10
    ensures 'A' <= c <= 'F' ==> x == c as int - 'A' as int + 10
  {
    var x := c as int;
    (if x > '9' as int then x + 9 else x) % 16
  }

  function HexDigit(x: nat, uppercase: bool): (c: char)
    requires x < 16
    ensures IsHexDigit(c) && HexDigitToInt(c) == x
  {
    if x < 10 then '0' + x as char
    else if uppercase then 'A' + (x - 10) as char
    else 'a' + (x - 10) as char
  }

  /** The character escaped at the start of the string, whatever it is. */
  function Escaped(s: string): char
    requires |s| > 2
  {
    (HexDigitToInt(s[1]) * 16 + HexDigitToInt(s[2])) as char
  }

  /** An escape to be decoded starts here. */
  predicate IsEscape(s: string, unescapeReserved: bool) {
    && |s| > 2 && s[0] == '%' && IsHexDigit(s[1]) && IsHexDigit(s[2])
    && (unescapeReserved || !IsReservedChar(Escaped(s)))
  }

  /** The decoded string. */
  function Unescape(s: string, unescapeReserved: bool): string {
    if s == "" then ""
    else if IsEscape(s, unescapeReserved) then [Escaped(s)] + Unescape(s[3..], unescapeReserved)
    else [s[0]] + Unescape(s[1..], unescapeReserved)
  }

  lemma {:induction false} UnescapeNothing(s: string, unescapeReserved: bool)
    requires forall i :: 0 <= i < |s| ==> !IsEscape(s[i..], unescapeReserved)
    ensures Unescape(s, unescapeReserved) == s
  {
    if s != "" {
      assert s[0..] == s;
      forall i | 0 <= i < |s[1..]|
        ensures !IsEscape(s[1..][i..], unescapeReserved)
      {
        assert s[1..][i..] == s[i + 1..];
      }
      UnescapeNothing(s[1..], unescapeReserved);
    }
  }

  const HEX_DIGITS := {'0', '1', '2', '3', '4', '5', '6', '7', '8', '9',
                       'a', 'b', 'c', 'd', 'e', 'f', 'A', 'B', 'C', 'D', 'E', 'F'}

  /** No `%` with two hexadecimal digits after it. */
  predicate NoEscape(s: string) {
    forall i :: 0 <= i < |s| - 2 ==> !(s[i] == '%' && s[i + 1] in HEX_DIGITS && s[i + 2] in HEX_DIGITS)
  }

  lemma {:induction false} EscapeDigits(s: string)
    ensures IsEscape(s, true) <==> |s| > 2 && s[0] == '%' && s[1] in HEX_DIGITS && s[2] in HEX_DIGITS
  {}

  lemma {:induction false} UnescapeLength(s: string, unescapeReserved: bool)
    ensures |Unescape(s, unescapeReserved)| <= |s|
    decreases |s|
  {
    if s != "" {
      if IsEscape(s, unescapeReserved) {
        UnescapeLength(s[3..], unescapeReserved);
      } else {
        UnescapeLength(s[1..], unescapeReserved);
      }
    }
  }

  /** Exactly the strings without an escape are their own full decoding, and they
      are left alone in either mode. */
  lemma {:induction false} OwnDecoding(s: string)
    ensures Unescape(s, true) == s <==> NoEscape(s)
    ensures NoEscape(s) ==> Unescape(s, false) == s
    decreases |s|
  {
    if s != "" {
      EscapeDigits(s);
      if IsEscape(s, true) {
        UnescapeLength(s[3..], true);
        assert s[0] == '%';
      } else {
        OwnDecoding(s[1..]);
        NoEscapeTail(s);
        assert Unescape(s, true) == [s[0]] + Unescape(s[1..], true);
        assert s == [s[0]] + s[1..];
        assert Unescape(s, true)[1..] == Unescape(s[1..], true);
      }
    }
  }

  lemma {:induction false} NoEscapeTail(s: string)
    requires s != "" && !(|s| > 2 && s[0] == '%' && s[1] in HEX_DIGITS && s[2] in HEX_DIGITS)
    ensures NoEscape(s) <==> NoEscape(s[1..])
  {
    var tail := s[1..];
    assert forall i :: 0 <= i < |tail| ==> tail[i] == s[i + 1];
    if NoEscape(tail) {
      forall i | 0 <= i < |s| - 2
        ensures !(s[i] == '%' && s[i + 1] in HEX_DIGITS && s[i + 2] in HEX_DIGITS)
      {
        if i > 0 {
          assert !(tail[i - 1] == '%' && tail[i] in HEX_DIGITS && tail[i + 1] in HEX_DIGITS);
        }
      }
    }
  }

  /** Reads the escape at position `i`, if there is one to be decoded. */
  method GetEscapedChar(src: string, i: nat, unescapeReserved: bool) returns (ok: bool, c: char)
    requires i < |src|
    ensures ok == IsEscape(src[i..], unescapeReserved)
    ensures ok ==> i + 3 <= |src| && c == Escaped(src[i..])
    ensures Unescape(src[i..], unescapeReserved) ==
            if ok then [c] + Unescape(src[i + 3..], unescapeReserved)
            else [src[i]] + Unescape(src[i + 1..], unescapeReserved)
  {
    ok, c := false, ' ';
    if i + 2 < |src| && src[i] == '%' && IsHexDigit(src[i + 1]) && IsHexDigit(src[i + 2]) {
      c := (HexDigitToInt(src[i + 1]) * 16 + HexDigitToInt(src[i + 2])) as char;
      ok := unescapeReserved || !IsReservedChar(c);
      assert src[i..][3..] == src[i + 3..];
    }
    assert src[i..][1..] == src[i + 1..];
  }

  /** The early exit: without an escape anywhere the part is its own decoding. */
  method NeedsUnescaping(part: string, unescapeReserved: bool) returns (needed: bool)
    ensures !needed ==> Unescape(part, unescapeReserved) == part
    ensures needed ==> exists i :: 0 <= i < |part| && IsEscape(part[i..], unescapeReserved)
  {
    for i := 0 to |part|
      invariant forall j :: 0 <= j < i ==> !IsEscape(part[j..], unescapeReserved)
    {
      var found, _ := GetEscapedChar(part, i, unescapeReserved);
      if found {
        return true;
      }
    }
    UnescapeNothing(part, unescapeReserved);
    needed := false;
  }

  lemma Regroup(a: string, b: string, c: string)
    ensures a + (b + c) == a + b + c
  {}

  /** A scan for something to decode, then the decoding; both ways out give the
      decoded string. */
  method UrlUnescapeString(part: string, unescapeReserved: bool) returns (unescaped: string)
    ensures unescaped == Unescape(part, unescapeReserved)
  {
    var needsUnescaping := NeedsUnescaping(part, unescapeReserved);
    if !needsUnescaping {
      return part;
    }
    unescaped := UnescapeInto(part, unescapeReserved);
  }

  /** Decodes into a buffer as long as the part. */
  method UnescapeInto(part: string, unescapeReserved: bool) returns (unescaped: string)
    ensures unescaped == Unescape(part, unescapeReserved)
  {
    var buffer := new char[|part|];
    var p, i := 0, 0;
    assert part[0..] == part && buffer[..0] == [];
    while i < |part|
      invariant 0 <= p <= i <= |part|
      invariant buffer[..p] + Unescape(part[i..], unescapeReserved) == Unescape(part, unescapeReserved)
    {
      ghost var before, rest := buffer[..p], Unescape(part[i..], unescapeReserved);
      var found, c := GetEscapedChar(part, i, unescapeReserved);
      if found {
        i := i + 3;
      } else {
        c := part[i];
        i := i + 1;
      }
      ghost var rest' := Unescape(part[i..], unescapeReserved);
      assert rest == [c] + rest';
      Regroup(before, [c], rest');
      buffer[p] := c;
      p := p + 1;
      assert buffer[..p] == before + [c];
    }
    assert part[i..] == "";
    unescaped := buffer[..p];
  }

  // ---------------------------------------------------------------------------
  // Decoding undoes encoding
  // ---------------------------------------------------------------------------

  predicate IsByteString(s: string) {
    forall i :: 0 <= i < |s| ==> s[i] as int < 256
  }

  function EncodeChar(c: char, uppercase: bool): string
    requires c as int < 256
  {
    ['%', HexDigit(c as int / 16, uppercase), HexDigit(c as int % 16, uppercase)]
  }

  function Encode(s: string, uppercase: bool): string
    requires IsByteString(s)
  {
    if s == "" then "" else EncodeChar(s[0], uppercase) + Encode(s[1..], uppercase)
  }

  /** The byte string with only its reserved characters encoded. */
  function EncodeReserved(s: string, uppercase: bool): string
    requires IsByteString(s)
  {
    if s == "" then ""
    else
      (if IsReservedChar(s[0]) then EncodeChar(s[0], uppercase) else [s[0]])
      + EncodeReserved(s[1..], uppercase)
  }

  /** Decoding a fully encoded byte string gives it back, or, when reserved
      characters are to stay encoded, exactly those stay encoded. */
  lemma {:induction false} UnescapeEncode(s: string, uppercase: bool)
    requires IsByteString(s)
    ensures Unescape(Encode(s, uppercase), true) == s
    ensures Unescape(Encode(s, uppercase), false) == EncodeReserved(s, uppercase)
  {
    if s != "" {
      UnescapeEncode(s[1..], uppercase);
      UnescapeOne(s[0], uppercase, Encode(s[1..], uppercase));
    }
  }

  lemma UnescapeOne(c: char, uppercase: bool, rest: string)
    requires c as int < 256
    ensures Unescape(EncodeChar(c, uppercase) + rest, true) == [c] + Unescape(rest, true)
    ensures Unescape(EncodeChar(c, uppercase) + rest, false) ==
            (if IsReservedChar(c) then EncodeChar(c, uppercase) else [c]) + Unescape(rest, false)
  {
    var code := EncodeChar(c, uppercase);
    var e := code + rest;
    assert e[3..] == rest;
    assert Escaped(e) == Escaped(code) == c;
    if IsReservedChar(c) {
      UnescapeLiteral(code, rest);
    }
  }

  /** An escape of a reserved character is copied. */
  lemma UnescapeLiteral(code: string, rest: string)
    requires |code| == 3 && code[0] == '%' && IsHexDigit(code[1]) && IsHexDigit(code[2])
    requires IsReservedChar(Escaped(code))
    ensures Unescape(code + rest, false) == code + Unescape(rest, false)
  {
    var e := code + rest;
    assert Escaped(e) == Escaped(code);
    assert Unescape(e, false) == [e[0]] + Unescape(e[1..], false);
    assert Unescape(e[1..], false) == [e[1]] + Unescape(e[1..][1..], false);
    assert Unescape(e[1..][1..], false) == [e[2]] + Unescape(e[1..][1..][1..], false);
    assert e[1..][1..][1..] == rest;
    assert code == [e[0]] + ([e[1]] + [e[2]]);
  }

  const GEN_DELIMS := {':', '/', '?', '#', '[', ']', '@'}
  const SUB_DELIMS := {'!', '$', '&', '\'', '(', ')', '*', '+', ',', ';', '='}

  /** What stays encoded when reserved characters are to: the delimiters of
      section 2.2 of RFC 3986, which section 1.5 of RFC 6570 calls reserved. */
  lemma {:induction false} DelimitersStayEncoded(c: char, uppercase: bool)
    requires c as int < 256
    ensures Unescape(EncodeChar(c, uppercase), false) ==
            if c in GEN_DELIMS + SUB_DELIMS then EncodeChar(c, uppercase) else [c]
  {
    var code := EncodeChar(c, uppercase);
    UnescapeOne(c, uppercase, "");
    assert code + "" == code && [c] + "" == [c];
  }

  // ---------------------------------------------------------------------------
  // Reserved characters are neither made nor lost
  // ---------------------------------------------------------------------------

  function Count(c: char, s: string): nat {
    if s == "" then 0 else (if s[0] == c then 1 else 0) + Count(c, s[1..])
  }

  lemma {:induction false} CountCons(c: char, first: char, rest: string)
    ensures Count(c, [first] + rest) == (if first == c then 1 else 0) + Count(c, rest)
  {
    assert ([first] + rest)[1..] == rest;
  }

  /** Neither the escape nor the character it stands for counts. */
  lemma {:induction false} EscapeNotReserved(s: string, c: char)
    requires IsReservedChar(c) && IsEscape(s, false)
    ensures Escaped(s) != c && s[0] != c && s[1] != c && s[2] != c
  {}

  lemma {:induction false} CountSkips(s: string, c: char)
    requires |s| >= 3 && s[0] != c && s[1] != c && s[2] != c
    ensures Count(c, s) == Count(c, s[3..])
  {
    assert s == [s[0]] + ([s[1]] + ([s[2]] + s[3..]));
    CountCons(c, s[2], s[3..]);
    CountCons(c, s[1], [s[2]] + s[3..]);
    CountCons(c, s[0], [s[1]] + ([s[2]] + s[3..]));
  }

  lemma {:induction false} ReservedPreserved(s: string, c: char)
    requires IsReservedChar(c)
    ensures Count(c, Unescape(s, false)) == Count(c, s)
    decreases |s|
  {
    if s != "" {
      if IsEscape(s, false) {
        ReservedPreserved(s[3..], c);
        EscapeNotReserved(s, c);
        CountSkips(s, c);
        CountCons(c, Escaped(s), Unescape(s[3..], false));
      } else {
        ReservedPreserved(s[1..], c);
        CountCons(c, s[0], Unescape(s[1..], false));
      }
    }
  }

  lemma {:induction false} CountFree(c: char, s: string)
    ensures Count(c, s) == 0 <==> Free(s, {c})
  {
    if s != "" {
      CountFree(c, s[1..]);
      assert s == [s[0]] + s[1..];
    }
  }

  function UnescapeAll(parts: seq<string>, unescapeReserved: bool): seq<string> {
    seq(|parts|, i requires 0 <= i < |parts| => Unescape(parts[i], unescapeReserved))
  }

  /** A multi-part value splits back into exactly its decoded parts. */
  lemma MultipartSplits(parts: seq<string>)
    requires parts != [] && AllFree(parts, {'/'})
    ensures Split(Join(UnescapeAll(parts, false))) == UnescapeAll(parts, false)
  {
    var decoded := UnescapeAll(parts, false);
    forall i | 0 <= i < |decoded|
      ensures Free(decoded[i], {'/'})
    {
      ReservedPreserved(parts[i], '/');
      CountFree('/', parts[i]);
      CountFree('/', decoded[i]);
    }
    SplitJoin(decoded);
  }
}
