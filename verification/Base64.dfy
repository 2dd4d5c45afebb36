/** Base64 as in RFC 4648: the URL-safe alphabet of section 5 without padding, and the
    standard alphabet of section 4 with padding. A string stands for its bytes. */
module Base64 {
  import opened Outcomes

  predicate IsBytes(s: string) {
    forall i | 0 <= i < |s| :: s[i] as int < 256
  }

  /** The two alphabets differ in the characters for 62 and 63. */
  datatype Alphabet = UrlSafe | Standard

  function Symbol(a: Alphabet, v: nat): char
    requires v < 64
  {
    if v < 26 then ('A' as int + v) as char
    else if v < 52 then ('a' as int + (v - 26)) as char
    else if v < 62 then ('0' as int + (v - 52)) as char
    else if v == 62 then (if a == UrlSafe then '-' else '+')
    else (if a == UrlSafe then '_' else '/')
  }

  function Sextet(a: Alphabet, c: char): Option<nat> {
    if 'A' <= c <= 'Z' then Some(c as int - 'A' as int)
    else if 'a' <= c <= 'z' then Some(c as int - 'a' as int + 26)
    else if '0' <= c <= '9' then Some(c as int - '0' as int + 52)
    else if c == Symbol(a, 62) then Some(62)
    else if c == Symbol(a, 63) then Some(63)
    else None
  }

  lemma SextetOfSymbol(a: Alphabet, v: nat)
    requires v < 64
    ensures Sextet(a, Symbol(a, v)) == Some(v)
  {
  }

  /** Groups of three bytes become four characters; one or two bytes left over become two or
      three characters. */
  function Encode(a: Alphabet, s: string): string
    requires IsBytes(s)
    decreases |s|
  {
    if |s| == 0 then ""
    else
      var b0 := s[0] as int;
      if |s| == 1 then [Symbol(a, b0 / 4), Symbol(a, b0 % 4 * 16)]
      else
        var b1 := s[1] as int;
        if |s| == 2 then [Symbol(a, b0 / 4), Symbol(a, b0 % 4 * 16 + b1 / 16), Symbol(a, b1 % 16 * 4)]
        else
          var b2 := s[2] as int;
          [Symbol(a, b0 / 4), Symbol(a, b0 % 4 * 16 + b1 / 16), Symbol(a, b1 % 16 * 4 + b2 / 64), Symbol(a, b2 % 64)]
          + Encode(a, s[3..])
  }

  /** `base64.StdEncoding`: padded to a multiple of four characters. */
  function EncodePadded(s: string): string
    requires IsBytes(s)
  {
    Encode(Standard, s) + (if |s| % 3 == 1 then "==" else if |s| % 3 == 2 then "=" else "")
  }

  /** The sextets of an input; carriage returns and line feeds are skipped. */
  function Sextets(a: Alphabet, s: string): Option<seq<nat>>
    decreases |s|
  {
    if s == "" then Some([])
    else
      match Sextets(a, s[1..])
      case None => None
      case Some(rest) =>
        if s[0] == '\r' || s[0] == '\n' then Some(rest)
        else if Sextet(a, s[0]).Some? then Some([Sextet(a, s[0]).value] + rest)
        else None
  }

  function Byte(n: nat): char {
    (n % 256) as char
  }

  /** The byte across the first and second, second and third, third and fourth sextet. */
  function Byte1(v0: nat, v1: nat): char { Byte(v0 * 4 + v1 / 16) }
  function Byte2(v1: nat, v2: nat): char { Byte(v1 * 16 + v2 / 4) }
  function Byte3(v2: nat, v3: nat): char { Byte(v2 * 64 + v3) }

  /** Four sextets become three bytes; two or three left over become one or two bytes, their
      spare bits dropped; a single one left over is an error. */
  function Join(v: seq<nat>): Option<string>
    decreases |v|
  {
    if |v| == 0 then Some("")
    else if |v| == 1 then None
    else if |v| == 2 then Some([Byte1(v[0], v[1])])
    else if |v| == 3 then Some([Byte1(v[0], v[1]), Byte2(v[1], v[2])])
    else
      match Join(v[4..])
      case None => None
      case Some(rest) =>
        Some([Byte1(v[0], v[1]), Byte2(v[1], v[2]), Byte3(v[2], v[3])] + rest)
  }

  /** `RawURLEncoding.DecodeString` */
  function Decode(a: Alphabet, s: string): Option<string> {
    match Sextets(a, s)
    case None => None
    case Some(v) => Join(v)
  }

  // ---------------------------------------------------------------- round trip

  function Four(b0: nat, b1: nat, b2: nat): (v: seq<nat>)
    requires b0 < 256 && b1 < 256 && b2 < 256
    ensures |v| == 4 && forall i | 0 <= i < 4 :: v[i] < 64
  {
    [b0 / 4, b0 % 4 * 16 + b1 / 16, b1 % 16 * 4 + b2 / 64, b2 % 64]
  }

  /** The sextets `Encode` writes, before they are turned into characters. */
  function Split(s: string): (v: seq<nat>)
    requires IsBytes(s)
    ensures forall i | 0 <= i < |v| :: v[i] < 64
    decreases |s|
  {
    if |s| == 0 then []
    else
      var b0 := s[0] as int;
      if |s| == 1 then [b0 / 4, b0 % 4 * 16]
      else
        var b1 := s[1] as int;
        if |s| == 2 then [b0 / 4, b0 % 4 * 16 + b1 / 16, b1 % 16 * 4]
        else
          Four(b0, b1, s[2] as int) + Split(s[3..])
  }

  function Symbols(a: Alphabet, v: seq<nat>): string
    requires forall i | 0 <= i < |v| :: v[i] < 64
  {
    seq(|v|, i requires 0 <= i < |v| => Symbol(a, v[i]))
  }

  lemma {:induction false} EncodeIsSplit(a: Alphabet, s: string)
    requires IsBytes(s)
    ensures Encode(a, s) == Symbols(a, Split(s))
    decreases |s|
  {
    if |s| >= 3 {
      EncodeIsSplit(a, s[3..]);
      var v := Split(s);
      assert v[4..] == Split(s[3..]);
      assert Symbols(a, v) == Symbols(a, v[..4]) + Symbols(a, v[4..]);
      assert Symbols(a, v[..4]) == [Symbol(a, v[0]), Symbol(a, v[1]), Symbol(a, v[2]), Symbol(a, v[3])];
    }
  }

  lemma {:induction false} SextetsOfSymbols(a: Alphabet, v: seq<nat>)
    requires forall i | 0 <= i < |v| :: v[i] < 64
    ensures Sextets(a, Symbols(a, v)) == Some(v)
  {
    if v != [] {
      SextetOfSymbol(a, v[0]);
      SextetsOfSymbols(a, v[1..]);
      assert Symbols(a, v)[1..] == Symbols(a, v[1..]);
      assert v == [v[0]] + v[1..];
    }
  }

  /** `r` and `q` share a byte boundary: the low bits of one sextet and the high bits of the next. */
  lemma Boundary(q: nat, r: nat, lead: nat, size: nat, rest: nat)
    requires size * rest == 256 && size > 0 && rest > 0 && r < rest && q < size
    ensures Byte(lead * 256 + q * rest + r) == (q * rest + r) as char
  {
    assert q * rest + r <= (size - 1) * rest + r < size * rest;
    assert (lead * 256 + (q * rest + r)) % 256 == (q * rest + r) % 256;
  }

  lemma FirstByte(b0: nat, high: nat)
    requires b0 < 256 && high < 16
    ensures Byte1(b0 / 4, b0 % 4 * 16 + high) == b0 as char
  {
    var q, r := b0 / 4, b0 % 4;
    assert (r * 16 + high) / 16 == r;
    Boundary(q, r, 0, 64, 4);
  }

  lemma SecondByte(lead: nat, b1: nat, high: nat)
    requires lead < 4 && b1 < 256 && high < 4
    ensures Byte2(lead * 16 + b1 / 16, b1 % 16 * 4 + high) == b1 as char
  {
    var q, r := b1 / 16, b1 % 16;
    assert (r * 4 + high) / 4 == r;
    Boundary(q, r, lead, 16, 16);
    assert (lead * 16 + q) * 16 + r == lead * 256 + q * 16 + r;
  }

  lemma ThirdByte(lead: nat, b2: nat)
    requires lead < 16 && b2 < 256
    ensures Byte3(lead * 4 + b2 / 64, b2 % 64) == b2 as char
  {
    var q, r := b2 / 64, b2 % 64;
    Boundary(q, r, lead, 4, 64);
    assert (lead * 4 + q) * 64 + r == lead * 256 + q * 64 + r;
  }

  lemma JoinTwo(b0: nat, b1: nat)
    requires b0 < 256 && b1 < 256
    ensures Join([b0 / 4, b0 % 4 * 16 + b1 / 16, b1 % 16 * 4]) == Some([b0 as char, b1 as char])
  {
    FirstByte(b0, b1 / 16);
    SecondByte(b0 % 4, b1, 0);
  }

  function Bytes(v: seq<nat>): string
    requires |v| == 4
  {
    [Byte1(v[0], v[1]), Byte2(v[1], v[2]), Byte3(v[2], v[3])]
  }

  lemma JoinFour(v: seq<nat>, rest: seq<nat>)
    requires |v| == 4 && Join(rest).Some?
    ensures Join(v + rest) == Some(Bytes(v) + Join(rest).value)
  {
    assert (v + rest)[4..] == rest;
  }

  lemma BytesOfFour(b0: nat, b1: nat, b2: nat)
    requires b0 < 256 && b1 < 256 && b2 < 256
    ensures Bytes(Four(b0, b1, b2)) == [b0 as char, b1 as char, b2 as char]
  {
    var v := Four(b0, b1, b2);
    assert Byte1(v[0], v[1]) == b0 as char by { FirstByte(b0, b1 / 16); }
    assert Byte2(v[1], v[2]) == b1 as char by { SecondByte(b0 % 4, b1, b2 / 64); }
    assert Byte3(v[2], v[3]) == b2 as char by { ThirdByte(b1 % 16, b2); }
  }

  lemma JoinOne(b0: nat)
    requires b0 < 256
    ensures Join([b0 / 4, b0 % 4 * 16]) == Some([b0 as char])
  {
    assert b0 % 4 * 16 / 16 == b0 % 4;
  }

  lemma SplitShort(s: string)
    requires IsBytes(s) && 1 <= |s| <= 2
    ensures Join(Split(s)) == Some(s)
  {
    if |s| == 1 {
      JoinOne(s[0] as int);
      assert s == [s[0]];
    } else {
      JoinTwo(s[0] as int, s[1] as int);
      assert s == [s[0], s[1]];
    }
  }

  lemma SplitLong(s: string)
    requires IsBytes(s) && |s| >= 3 && Join(Split(s[3..])) == Some(s[3..])
    ensures Join(Split(s)) == Some(s)
  {
    var b0, b1, b2 := s[0] as int, s[1] as int, s[2] as int;
    var v := Four(b0, b1, b2);
    BytesOfFour(b0, b1, b2);
    JoinFour(v, Split(s[3..]));
    assert s == [s[0], s[1], s[2]] + s[3..];
  }

  lemma {:induction false} JoinOfSplit(s: string)
    requires IsBytes(s)
    ensures Join(Split(s)) == Some(s)
    decreases |s|
  {
    if 1 <= |s| <= 2 {
      SplitShort(s);
    } else if |s| >= 3 {
      JoinOfSplit(s[3..]);
      SplitLong(s);
    }
  }

  /** Decoding undoes encoding, for all byte strings. */
  lemma DecodeOfEncode(a: Alphabet, s: string)
    requires IsBytes(s)
    ensures Decode(a, Encode(a, s)) == Some(s)
  {
    EncodeIsSplit(a, s);
    SextetsOfSymbols(a, Split(s));
    JoinOfSplit(s);
  }

  lemma SymbolHasSextet(a: Alphabet, v: nat)
    requires v < 64
    ensures Sextet(a, Symbol(a, v)).Some? && Symbol(a, v) != '\"'
  {
  }

  /** Encoded text can stand unescaped in a URL, or inside quotation marks in a header. */
  lemma EncodedCharacters(a: Alphabet, s: string)
    requires IsBytes(s)
    ensures forall i | 0 <= i < |Encode(a, s)| :: Sextet(a, Encode(a, s)[i]).Some? && Encode(a, s)[i] != '\"'
  {
    EncodeIsSplit(a, s);
    forall i | 0 <= i < |Encode(a, s)| ensures Sextet(a, Encode(a, s)[i]).Some? && Encode(a, s)[i] != '\"' {
      SymbolHasSextet(a, Split(s)[i]);
    }
  }

  /** Different byte strings have different padded forms. */
  lemma PaddedInjective(s: string, t: string)
    requires IsBytes(s) && IsBytes(t)
    ensures EncodePadded(s) == EncodePadded(t) <==> s == t
  {
    if EncodePadded(s) == EncodePadded(t) {
      var e, f := Encode(Standard, s), Encode(Standard, t);
      EncodedCharacters(Standard, s);
      EncodedCharacters(Standard, t);
      assert Sextet(Standard, '=') == None;
      BeforePadding(e, EncodePadded(s)[|e|..]);
      BeforePadding(f, EncodePadded(t)[|f|..]);
      assert EncodePadded(s) == e + EncodePadded(s)[|e|..] && EncodePadded(t) == f + EncodePadded(t)[|f|..];
      assert e == EncodePadded(s)[..|e|] && f == EncodePadded(t)[..|f|];
      DecodeOfEncode(Standard, s);
      DecodeOfEncode(Standard, t);
    }
  }

  /** How many characters come before the first padding character. */
  function Unpadded(s: string): nat {
    if s == "" || s[0] == '=' then 0 else 1 + Unpadded(s[1..])
  }

  lemma {:induction false} BeforePadding(e: string, p: string)
    requires '=' !in e && (p != "" ==> p[0] == '=')
    ensures Unpadded(e + p) == |e|
  {
    if e == "" {
      assert e + p == p;
    } else {
      assert (e + p)[1..] == e[1..] + p;
      BeforePadding(e[1..], p);
    }
  }

  // ---------------------------------------------------------------- what the encoding is

  /** The alphabets, by their ASCII codes: A to Z, a to z, 0 to 9, and then - and _ or + and /. */
  lemma SymbolsAre(a: Alphabet, v: nat)
    requires v < 64
    ensures v < 26 ==> Symbol(a, v) as int == 65 + v
    ensures 26 <= v < 52 ==> Symbol(a, v) as int == 97 + (v - 26)
    ensures 52 <= v < 62 ==> Symbol(a, v) as int == 48 + (v - 52)
    ensures Symbol(UrlSafe, 62) as int == 45 && Symbol(UrlSafe, 63) as int == 95
    ensures Symbol(Standard, 62) as int == 43 && Symbol(Standard, 63) as int == 47
  {
  }

  /** Three bytes and their four sextets are the same number, and so are the bytes of a shorter
      group and its sextets with two or four zero bits behind them. */
  lemma SameNumber(b0: nat, b1: nat, b2: nat)
    requires b0 < 256 && b1 < 256 && b2 < 256
    ensures var v := Four(b0, b1, b2);
            ((v[0] * 64 + v[1]) * 64 + v[2]) * 64 + v[3] == (b0 * 256 + b1) * 256 + b2
    ensures var v := Split([b0 as char, b1 as char]);
            |v| == 3 && (v[0] * 64 + v[1]) * 64 + v[2] == (b0 * 256 + b1) * 4
    ensures var v := Split([b0 as char]);
            |v| == 2 && v[0] * 64 + v[1] == b0 * 16
  {
    assert b0 == b0 / 4 * 4 + b0 % 4 && b1 == b1 / 16 * 16 + b1 % 16 && b2 == b2 / 64 * 64 + b2 % 64;
  }

  /** Padded text comes in groups of four, one for every three bytes begun. */
  lemma PaddedLength(s: string)
    requires IsBytes(s)
    ensures |EncodePadded(s)| == (|s| + 2) / 3 * 4
  {
    EncodedLength(s);
    FullGroups(|s|);
    assert |"=="| == 2 && |"="| == 1;
  }

  lemma FullGroups(n: nat)
    ensures n / 3 * 4 + (if n % 3 == 0 then 0 else n % 3 + 1) + (if n % 3 == 1 then 2 else if n % 3 == 2 then 1 else 0)
            == (n + 2) / 3 * 4
  {
  }

  lemma {:induction false} EncodedLength(s: string)
    requires IsBytes(s)
    ensures |Encode(Standard, s)| == |s| / 3 * 4 + if |s| % 3 == 0 then 0 else |s| % 3 + 1
    decreases |s|
  {
    if |s| >= 3 {
      EncodedLength(s[3..]);
      assert |s[3..]| % 3 == |s| % 3 && |s[3..]| / 3 == |s| / 3 - 1;
    }
  }

  // ---------------------------------------------------------------- what is decoded

  /** The characters of the alphabet and no others have a value. */
  lemma SextetIff(a: Alphabet, c: char, v: nat)
    requires v < 64
    ensures Sextet(a, c) == Some(v) <==> c == Symbol(a, v)
  {
  }

  lemma OtherCharactersRefused(a: Alphabet, c: char)
    ensures Sextet(a, c).None? ==> forall v: nat | v < 64 :: Symbol(a, v) != c
    ensures Sextet(a, c).Some? ==> Sextet(a, c).value < 64
  {
    if Sextet(a, c).None? {
      forall v: nat | v < 64 ensures Symbol(a, v) != c { SextetOfSymbol(a, v); }
    }
  }

  /** Line breaks anywhere in the input are ignored. */
  lemma {:induction false} LineBreaksIgnored(a: Alphabet, s: string, c: char, t: string)
    requires c == '\r' || c == '\n'
    ensures Sextets(a, s + [c] + t) == Sextets(a, s + t)
    decreases |s|
  {
    if s == "" {
      assert (s + [c] + t)[1..] == s + t;
    } else {
      assert (s + [c] + t)[1..] == s[1..] + [c] + t && (s + t)[1..] == s[1..] + t;
      LineBreaksIgnored(a, s[1..], c, t);
    }
  }

  /** A single sextet left over is refused; the spare bits of two or three are dropped. */
  lemma {:induction false} LeftOver(v: seq<nat>)
    ensures |v| % 4 == 1 <==> Join(v).None?
    decreases |v|
  {
    if |v| >= 4 {
      LeftOver(v[4..]);
      assert |v[4..]| % 4 == |v| % 4;
    }
  }

  lemma SpareBitsDropped(v0: nat, v1: nat, v2: nat)
    ensures Join([v0, v1]) == Some([((v0 * 4 + v1 / 16) % 256) as char])
    ensures Join([v0, v1, v2]) == Some([((v0 * 4 + v1 / 16) % 256) as char, ((v1 * 16 + v2 / 4) % 256) as char])
  {
  }

  lemma PaddedHasNoQuote(s: string)
    requires IsBytes(s)
    ensures '\"' !in EncodePadded(s)
  {
    EncodedCharacters(Standard, s);
  }
}
