/** The text of a magnet URI, character by character: which texts are magnets and what they mean,
    and what is printed (src/magnet.c). */
module MagnetText {
  import Bits
  import opened Ids
  import opened Magnet
  import opened Options

  // ---------- digits ----------

  ghost predicate IsHexDigit(c: char, d: nat) {
    d < 16 && (c == "0123456789abcdef"[d] || c == "0123456789ABCDEF"[d])
  }

  lemma HexDigitIs(d: nat)
    requires d < 16
    ensures HexDigit(d) == "0123456789abcdef"[d]
  {
    if d < 8 {
      LowHexDigit(d);
    } else {
      HighHexDigit(d);
    }
  }

  lemma LowHexDigit(d: nat)
    requires d < 8
    ensures HexDigit(d) == "01234567"[d] == "0123456789abcdef"[d]
  {
    assert d == 0 || d == 1 || d == 2 || d == 3 || d == 4 || d == 5 || d == 6 || d == 7;
  }

  lemma HighHexDigit(d: nat)
    requires 8 <= d < 16
    ensures HexDigit(d) == "89abcdef"[d - 8] == "0123456789abcdef"[d]
  {
    assert d == 8 || d == 9 || d == 10 || d == 11 || d == 12 || d == 13 || d == 14 || d == 15;
  }

  /** The digits that are read are these 22 characters, with these values. */
  lemma HexValueIs(c: char, d: nat)
    ensures HexValue(c) == Some(d) <==> IsHexDigit(c, d)
  {
    if d < 16 {
      HexDigitIs(d);
      CapitalIs(d);
      if HexValue(c) == Some(d) {
        assert c == HexDigit(d) || c == Capital(d);
      }
    }
  }

  function Capital(d: nat): (c: char)
    requires d < 16
  {
    if d < 10 then '0' + d as char else 'A' + (d - 10) as char
  }

  lemma CapitalIs(d: nat)
    requires d < 16
    ensures Capital(d) == "0123456789ABCDEF"[d] && HexValue(Capital(d)) == Some(d)
  {
    if d < 8 {
      assert d == 0 || d == 1 || d == 2 || d == 3 || d == 4 || d == 5 || d == 6 || d == 7;
    } else {
      assert d == 8 || d == 9 || d == 10 || d == 11 || d == 12 || d == 13 || d == 14 || d == 15;
    }
  }

  predicate IsDigit(c: char, d: nat) {
    d < 10 && c == "0123456789"[d]
  }

  lemma DigitIs(c: char, d: nat)
    ensures IsDigit(c, d) <==> '0' <= c <= '9' && d == c as nat - '0' as nat
  {
    if d < 10 {
      assert d == 0 || d == 1 || d == 2 || d == 3 || d == 4 || d == 5 || d == 6 || d == 7 || d == 8 || d == 9;
    }
  }

  // ---------- the hash ----------

  ghost predicate IsHexChar(c: char) {
    exists d: nat :: IsHexDigit(c, d)
  }

  ghost predicate AllHexChars(s: string) {
    forall i: nat | i < |s| :: IsHexChar(s[i])
  }

  lemma HexCharIff(c: char)
    ensures HexValue(c).Some? <==> IsHexChar(c)
  {
    if HexValue(c).Some? {
      HexValueIs(c, HexValue(c).value);
    }
    if d: nat :| IsHexDigit(c, d) {
      HexValueIs(c, d);
    }
  }

  lemma AllHexIff(s: string)
    ensures AllHex(s) <==> AllHexChars(s)
  {
    forall i: nat | i < |s| ensures HexValue(s[i]).Some? <==> IsHexChar(s[i]) {
      HexCharIff(s[i]);
    }
  }

  /** b is the byte with these digits, the high one first. */
  ghost predicate ByteReads(high: char, low: char, b: bv8) {
    forall d: nat, e: nat | IsHexDigit(high, d) && IsHexDigit(low, e) :: b as nat == 16 * d + e
  }

  ghost predicate HashReads(digits: string, bytes: seq<bv8>) {
    && |digits| == 2 * |bytes|
    && forall k: nat | k < |bytes| :: ByteReads(digits[2 * k], digits[2 * k + 1], bytes[k])
  }

  lemma ByteOfIs(high: char, low: char, h: nat, l: nat)
    requires HexValue(high) == Some(h) && HexValue(low) == Some(l)
    ensures ByteOf(high, low) as nat == 16 * h + l
  {
    Bits.ByteIs(h, l);
  }

  lemma ByteReadsIff(high: char, low: char, b: bv8)
    requires HexValue(high).Some? && HexValue(low).Some?
    ensures b == ByteOf(high, low) <==> ByteReads(high, low, b)
  {
    var h, l := HexValue(high).value, HexValue(low).value;
    HexValueIs(high, h);
    HexValueIs(low, l);
    var x := ByteOf(high, low);
    ByteOfIs(high, low, h, l);
    if b as nat == x as nat {
      Bits.SameByte(b, x);
    }
    forall d: nat, e: nat | IsHexDigit(high, d) && IsHexDigit(low, e) ensures d == h && e == l {
      HexValueIs(high, d);
      HexValueIs(low, e);
    }
  }

  lemma HashReadsIff(digits: string, bytes: seq<bv8>)
    requires AllHex(digits) && |digits| == 2 * |bytes|
    ensures HashReads(digits, bytes) <==> ReadsAs(digits, bytes)
  {
    forall k: nat | k < |bytes|
      ensures bytes[k] == ByteOf(digits[2 * k], digits[2 * k + 1]) <==>
              ByteReads(digits[2 * k], digits[2 * k + 1], bytes[k])
    {
      ByteReadsIff(digits[2 * k], digits[2 * k + 1], bytes[k]);
    }
  }

  // ---------- the number ----------

  predicate AllDigits(s: string) {
    forall i: nat | i < |s| :: s[i] in "0123456789"
  }

  lemma InDigits(c: char)
    ensures c in "0123456789" <==> '0' <= c <= '9'
  {
    if '0' <= c <= '9' {
      DigitIs(c, c as nat - '0' as nat);
    }
    if c in "0123456789" {
      var d: nat :| d < 10 && "0123456789"[d] == c;
      DigitIs(c, d);
    }
  }

  /** The number that a row of digits writes. */
  ghost predicate Writes(s: string, n: nat)
    decreases |s|
  {
    if s == "" then n == 0 else Writes(s[..|s| - 1], n / 10) && IsDigit(s[|s| - 1], n % 10)
  }

  lemma {:induction false} DigitsWrite(s: string, n: nat)
    requires AllDigits(s)
    ensures Writes(s, n) <==> n == Digits(s, 0)
    decreases |s|
  {
    if s != "" {
      var front, c := s[..|s| - 1], s[|s| - 1];
      assert s == front + [c];
      forall i: nat | i < |front| ensures '0' <= front[i] <= '9' {
        InDigits(front[i]);
      }
      InDigits(c);
      DigitsSnoc(front, c, 0);
      DigitsWrite(front, n / 10);
      DigitIs(c, n % 10);
    }
  }

  lemma {:induction false} DigitsStop(s: string, rest: string, v: nat)
    requires AllDigits(s) && (rest == "" || rest[0] !in "0123456789")
    ensures Digits(s + rest, v) == Digits(s, v)
    decreases |s|
  {
    if s == "" {
      assert s + rest == rest;
      if rest != "" {
        InDigits(rest[0]);
      }
    } else {
      InDigits(s[0]);
      assert (s + rest)[1..] == s[1..] + rest;
      DigitsStop(s[1..], rest, 10 * v + (s[0] as nat - '0' as nat));
    }
  }

  /** The characters that atoi skips: space, and the five from tab to carriage return. */
  predicate Blank(c: char) {
    c in [' ', '\t', '\n', 11 as char, 12 as char, '\r']
  }

  lemma BlankIff(c: char)
    ensures IsSpace(c) <==> Blank(c)
  {
    if '\t' <= c <= '\r' {
      assert c as nat == 9 || c as nat == 10 || c as nat == 11 || c as nat == 12 || c as nat == 13;
    }
  }

  predicate AllBlank(s: string) {
    forall i: nat | i < |s| :: Blank(s[i])
  }

  lemma {:induction false} SkipIs(space: string, rest: string)
    requires AllBlank(space) && (rest == "" || !Blank(rest[0]))
    ensures SkipSpaces(space + rest) == rest
    decreases |space|
  {
    if space == "" {
      assert space + rest == rest;
      if rest != "" {
        BlankIff(rest[0]);
      }
    } else {
      BlankIff(space[0]);
      assert (space + rest)[1..] == space[1..] + rest;
      SkipIs(space[1..], rest);
    }
  }

  /** What atoi looks at: blanks, a sign or none, and the digits up to the first other character. */
  datatype Numeral = Numeral(space: string, sign: string, digits: string, rest: string)

  ghost predicate IsNumeral(s: string, w: Numeral) {
    && s == w.space + (w.sign + (w.digits + w.rest))
    && AllBlank(w.space) && (w.sign == "" || w.sign == "+" || w.sign == "-") && AllDigits(w.digits)
    && (w.rest == "" || w.rest[0] !in "0123456789")
    && (w.sign == "" && w.digits == "" && w.rest != "" ==> !Blank(w.rest[0]) && w.rest[0] != '+' && w.rest[0] != '-')
  }

  function Signed(sign: string, m: nat): int {
    if sign == "-" then 0 - m as int else m
  }

  /** The number that text begins with. */
  ghost predicate Reads(s: string, n: int) {
    exists w :: IsNumeral(s, w) && exists m: nat :: Writes(w.digits, m) && n == Signed(w.sign, m)
  }

  lemma TailOf(w: Numeral)
    requires AllDigits(w.digits) && (w.sign == "" || w.sign == "+" || w.sign == "-")
    requires w.rest == "" || w.rest[0] !in "0123456789"
    requires w.sign == "" && w.digits == "" && w.rest != "" ==>
               !Blank(w.rest[0]) && w.rest[0] != '+' && w.rest[0] != '-'
    ensures var t := w.sign + (w.digits + w.rest);
            && (t == "" || !Blank(t[0]))
            && (w.sign == "" ==> t == w.digits + w.rest && (t == "" || (t[0] != '-' && t[0] != '+')))
            && (w.sign != "" ==> t[0] == w.sign[0] && t[1..] == w.digits + w.rest)
  {
    var t := w.sign + (w.digits + w.rest);
    if w.sign == "" {
      assert t == w.digits + w.rest;
      if w.digits != "" {
        assert t[0] == w.digits[0];
        InDigits(t[0]);
      }
    }
  }

  lemma ReadsIs(s: string, w: Numeral)
    requires IsNumeral(s, w)
    ensures var m := Digits(w.digits, 0);
            var n := Signed(w.sign, m);
            Atoi(s) == if -0x8000_0000 <= n <= 0x7FFF_FFFF then Some(n) else None
  {
    var t := w.sign + (w.digits + w.rest);
    TailOf(w);
    SkipIs(w.space, t);
    DigitsStop(w.digits, w.rest, 0);
  }

  lemma {:induction false} SplitBlanks(s: string) returns (space: string, t: string)
    ensures s == space + t && AllBlank(space) && (t == "" || !Blank(t[0]))
  {
    if s != "" && Blank(s[0]) {
      space, t := SplitBlanks(s[1..]);
      space := [s[0]] + space;
    } else {
      space, t := "", s;
    }
  }

  lemma {:induction false} SplitDigits(s: string) returns (digits: string, rest: string)
    ensures s == digits + rest && AllDigits(digits) && (rest == "" || rest[0] !in "0123456789")
  {
    if s != "" && s[0] in "0123456789" {
      digits, rest := SplitDigits(s[1..]);
      digits := [s[0]] + digits;
    } else {
      digits, rest := "", s;
    }
  }

  lemma EveryTextIsNumeral(s: string) returns (w: Numeral)
    ensures IsNumeral(s, w)
  {
    var space, t := SplitBlanks(s);
    var signed := t != "" && (t[0] == '+' || t[0] == '-');
    var sign, u := if signed then t[..1] else "", if signed then t[1..] else t;
    assert t == sign + u;
    var digits, rest := SplitDigits(u);
    w := Numeral(space, sign, digits, rest);
  }

  /** atoi reads the number, if it is one of int. */
  lemma AtoiReads(s: string)
    ensures exists n: int :: Reads(s, n)
    ensures forall n: int | Reads(s, n) :: Atoi(s) == if -0x8000_0000 <= n <= 0x7FFF_FFFF then Some(n) else None
  {
    var w := EveryTextIsNumeral(s);
    var m := Digits(w.digits, 0);
    DigitsWrite(w.digits, m);
    assert Reads(s, Signed(w.sign, m));
    forall n: int | Reads(s, n) ensures Atoi(s) == if -0x8000_0000 <= n <= 0x7FFF_FFFF then Some(n) else None {
      AtoiReadsOne(s, n);
    }
  }

  lemma AtoiReadsOne(s: string, n: int)
    requires Reads(s, n)
    ensures Atoi(s) == if -0x8000_0000 <= n <= 0x7FFF_FFFF then Some(n) else None
  {
    var w :| IsNumeral(s, w) && exists m: nat :: Writes(w.digits, m) && n == Signed(w.sign, m);
    var m: nat :| Writes(w.digits, m) && n == Signed(w.sign, m);
    DigitsWrite(w.digits, m);
    ReadsIs(s, w);
  }

  // ---------- what a text means ----------

  /** The base and 64 hexadecimal digits, and then anything. */
  ghost predicate IsMagnetText(s: string) {
    |s| >= 86 && s[..22] == "magnet:?xt=urn:sha256:" && AllHexChars(s[22..86])
  }

  lemma IsMagnetIff(s: string)
    ensures IsMagnet(s) <==> IsMagnetText(s)
  {
    assert |BASE| == 22;
    if |s| >= 86 {
      AllHexIff(s[22..86]);
    }
  }

  /** A number gives a length: its size_t value, when the text fits 31 characters and the number an
      int; otherwise the behaviour is undefined. */
  ghost predicate LengthMeans(number: CString, r: Outcome) {
    if |number| >= 32 then r == Undefined
    else
      exists n: int :: Reads(number, n) &&
        if -0x8000_0000 <= n <= 0x7FFF_FFFF
        then r.Parsed? && r.magnet.length == (if n < 0 then n + 0x1_0000_0000_0000_0000 else n)
        else r == Undefined
  }

  /** The result of the parser in terms of the characters of the text. */
  ghost predicate TextMeans(s: CString, len: nat, junk: Size, r: Outcome) {
    if len == 0 || !IsMagnetText(s) then r == NotAMagnet
    else
      exists name, number ::
        && HasValue(s, "&dn=", name) && HasValue(s, "&xl=", number)
        && ValuesMean(s[22..86], junk, r, name, number)
  }

  ghost predicate ValuesMean(digits: string, junk: Size, r: Outcome, name: Option<CString>, number: Option<CString>) {
    && (match number
        case None => r.Parsed? && r.magnet.length == junk
        case Some(text) => LengthMeans(text, r))
    && (r.Parsed? ==> r.magnet.name == name && HashReads(digits, r.magnet.hash.bytes))
  }

  lemma LengthMeansIff(number: CString, r: Outcome)
    ensures LengthMeans(number, r) <==>
            if |number| >= 32 || Atoi(number).None? then r == Undefined
            else r.Parsed? && r.magnet.length == ToSize(Atoi(number).value)
  {
    AtoiReads(number);
    var n: int :| Reads(number, n);
  }

  lemma TextMeansFields(s: CString, junk: Size, r: Outcome, name: Option<CString>, number: Option<CString>)
    requires IsMagnet(s)
    ensures FieldsMean(s, junk, r, name, number) <==> ValuesMean(s[22..86], junk, r, name, number)
  {
    assert |BASE| == 22;
    if r.Parsed? {
      HashReadsIff(s[22..86], r.magnet.hash.bytes);
    }
    if number.Some? {
      LengthMeansIff(number.value, r);
    }
  }

  /** The parser's result is the one with this meaning. */
  lemma ParseTextMeans(s: CString, len: nat, junk: Size, r: Outcome)
    ensures TextMeans(s, len, junk, r) <==> r == Parse(s, len, junk)
  {
    ParseMeans(s, len, junk, r);
    IsMagnetIff(s);
    if IsMagnet(s) {
      forall name, number
        ensures FieldsMean(s, junk, r, name, number) <==> ValuesMean(s[22..86], junk, r, name, number)
      {
        TextMeansFields(s, junk, r, name, number);
      }
    }
  }

  /** Two texts whose digits differ in their case only give the same hash. */
  lemma CaseMakesNoDifference(s: CString, t: CString, len: nat, junk: Size)
    requires Parse(s, len, junk).Parsed? && Parse(t, len, junk).Parsed?
    requires forall i: nat | 22 <= i < 86 ::
               i < |s| && i < |t| && exists d: nat :: IsHexDigit(s[i], d) && IsHexDigit(t[i], d)
    ensures Parse(s, len, junk).magnet.hash == Parse(t, len, junk).magnet.hash
  {
    var a, b := Parse(s, len, junk).magnet.hash, Parse(t, len, junk).magnet.hash;
    ParseTextMeans(s, len, junk, Parse(s, len, junk));
    ParseTextMeans(t, len, junk, Parse(t, len, junk));
    forall k: nat | k < ID_LENGTH ensures a.bytes[k] == b.bytes[k] {
      var d: nat :| IsHexDigit(s[22 + 2 * k], d) && IsHexDigit(t[22 + 2 * k], d);
      var e: nat :| IsHexDigit(s[22 + 2 * k + 1], e) && IsHexDigit(t[22 + 2 * k + 1], e);
      assert s[22..86][2 * k] == s[22 + 2 * k] && t[22..86][2 * k] == t[22 + 2 * k];
      assert s[22..86][2 * k + 1] == s[22 + 2 * k + 1] && t[22..86][2 * k + 1] == t[22 + 2 * k + 1];
      assert a.bytes[k] as nat == 16 * d + e && b.bytes[k] as nat == 16 * d + e;
    }
    assert a.bytes == b.bytes;
  }

  // ---------- what is printed ----------

  /** The two small digits of a byte. */
  ghost predicate BytePrints(b: bv8, high: char, low: char) {
    high == "0123456789abcdef"[b as nat / 16] && low == "0123456789abcdef"[b as nat % 16]
  }

  ghost predicate HashPrints(bytes: seq<bv8>, digits: string) {
    && |digits| == 2 * |bytes|
    && forall k: nat | k < |bytes| :: BytePrints(bytes[k], digits[2 * k], digits[2 * k + 1])
  }

  lemma {:induction false} HexAt(bytes: seq<bv8>, k: nat)
    requires k < |bytes|
    ensures Hex(bytes)[2 * k] == HexDigit(bytes[k] as nat / 16)
    ensures Hex(bytes)[2 * k + 1] == HexDigit(bytes[k] as nat % 16)
  {
    if k > 0 {
      HexAt(bytes[1..], k - 1);
      assert Hex(bytes)[2..] == Hex(bytes[1..]);
    }
  }

  lemma HexPrints(bytes: seq<bv8>)
    ensures HashPrints(bytes, Hex(bytes))
  {
    forall k: nat | k < |bytes| ensures BytePrints(bytes[k], Hex(bytes)[2 * k], Hex(bytes)[2 * k + 1]) {
      HexAt(bytes, k);
      HexDigitIs(bytes[k] as nat / 16);
      HexDigitIs(bytes[k] as nat % 16);
    }
  }

  lemma {:induction false} DecimalWrites(n: nat)
    ensures Writes(Decimal(n), n) && AllDigits(Decimal(n)) && (n > 0 ==> Decimal(n)[0] != '0')
  {
    var s := Decimal(n);
    forall i: nat | i < |s| ensures s[i] in "0123456789" {
      InDigits(s[i]);
    }
    DigitsOfDecimal(n);
    DigitsWrite(s, n);
    if n >= 10 {
      DecimalWrites(n / 10);
      assert s[0] == Decimal(n / 10)[0];
    }
  }

  /** The URI of a magnet, in terms of its characters. */
  ghost predicate PrintsAs(m: FileMagnet, u: string) {
    exists digits, number ::
      && HashPrints(m.hash.bytes, digits)
      && Writes(number, m.length) && AllDigits(number) && number != "" && (m.length > 0 ==> number[0] != '0')
      && u == "magnet:?xt=urn:sha256:" + digits
              + (if m.name.Some? then "&dn=" + m.name.value else "")
              + (if m.length > 0 then "&xl=" + number else "")
  }

  /** The URI that is printed is this one. */
  lemma UriPrints(m: FileMagnet)
    ensures PrintsAs(m, Uri(m))
  {
    HexPrints(m.hash.bytes);
    DecimalWrites(m.length);
    var digits, number := Hex(m.hash.bytes), Decimal(m.length);
    assert Uri(m) == "magnet:?xt=urn:sha256:" + digits
                     + (if m.name.Some? then "&dn=" + m.name.value else "")
                     + (if m.length > 0 then "&xl=" + number else "");
  }
}
