/** Magnet URIs (src/magnet.c): printing into a buffer of a computed size, and parsing. A char
    stands for a byte. */
module Magnet {
  import Bits
  import opened Ids
  import opened Options

  // A C string: its terminator is not part of it.
  type CString = s: string | '\0' !in s witness ""

  const SIZE_RANGE: nat := 0x1_0000_0000_0000_0000
  const INT_LIMIT: int := 0x8000_0000
  const NUMBER_BUFFER: nat := 32

  type Size = n: nat | n < SIZE_RANGE

  // struct FileMagnet, without the fields that are always NULL.
  datatype FileMagnet = FileMagnet(hash: HashID, name: Option<CString>, length: Size)

  const BASE: string := "magnet:?xt=urn:sha256:"
  const NAME_KEY: string := "&dn="
  const LENGTH_KEY: string := "&xl="

  // ---------- hexadecimal digits ----------

  /** A digit of %x. */
  function HexDigit(k: nat): (c: char)
    requires k < 16
    ensures HexValue(c) == Some(k)
  {
    if k < 10 then '0' + k as char else 'a' + (k - 10) as char
  }

  /** The value of a character of the class [A-Fa-f0-9]. */
  function HexValue(c: char): (v: Option<nat>)
    ensures v.Some? ==> v.value < 16 && c != '&' && c != '\0'
  {
    if '0' <= c <= '9' then Some(c as nat - '0' as nat)
    else if 'a' <= c <= 'f' then Some(c as nat - 'a' as nat + 10)
    else if 'A' <= c <= 'F' then Some(c as nat - 'A' as nat + 10)
    else None
  }

  predicate AllHex(s: string) {
    forall i: nat | i < |s| :: HexValue(s[i]).Some?
  }

  /** What %02x prints for each byte. */
  function Hex(bytes: seq<bv8>): (s: string)
    ensures |s| == 2 * |bytes| && AllHex(s)
  {
    if bytes == [] then ""
    else [HexDigit(bytes[0] as nat / 16), HexDigit(bytes[0] as nat % 16)] + Hex(bytes[1..])
  }

  /** What %2hhx reads from two digits. */
  function ByteOf(high: char, low: char): bv8
    requires HexValue(high).Some? && HexValue(low).Some?
  {
    Bits.Byte(HexValue(high).value, HexValue(low).value)
  }

  function UnHex(s: string): (bytes: seq<bv8>)
    requires AllHex(s) && |s| % 2 == 0
    ensures 2 * |bytes| == |s|
  {
    if s == "" then [] else [ByteOf(s[0], s[1])] + UnHex(s[2..])
  }

  lemma {:induction false} UnHexOfHex(bytes: seq<bv8>)
    ensures UnHex(Hex(bytes)) == bytes
  {
    if bytes != [] {
      UnHexOfHex(bytes[1..]);
      assert Hex(bytes)[2..] == Hex(bytes[1..]);
      Bits.ByteIs(bytes[0] as nat / 16, bytes[0] as nat % 16);
      Bits.SameByte(bytes[0], Bits.Byte(bytes[0] as nat / 16, bytes[0] as nat % 16));
    }
  }

  // ---------- decimal numbers ----------

  /** What %zu prints. */
  function Decimal(n: nat): (s: string)
    ensures s != "" && forall i: nat | i < |s| :: '0' <= s[i] <= '9'
  {
    var digit := ['0' + (n % 10) as char];
    if n < 10 then digit else Decimal(n / 10) + digit
  }

  /** The number that the leading digits of s continue, from the value v of those before them. */
  function Digits(s: string, v: nat): nat {
    if s != "" && '0' <= s[0] <= '9' then Digits(s[1..], 10 * v + (s[0] as nat - '0' as nat)) else v
  }

  predicate IsSpace(c: char) {
    c == ' ' || '\t' <= c <= '\r'
  }

  function SkipSpaces(s: string): string {
    if s != "" && IsSpace(s[0]) then SkipSpaces(s[1..]) else s
  }

  /** atoi; None when the number is outside the range of int and the result is undefined. */
  function Atoi(s: string): Option<int> {
    var t := SkipSpaces(s);
    var v := if t != "" && (t[0] == '-' || t[0] == '+') then Digits(t[1..], 0) else Digits(t, 0);
    var n := if t != "" && t[0] == '-' then -v else v;
    if -INT_LIMIT <= n < INT_LIMIT then Some(n) else None
  }

  lemma {:induction false} DigitsSnoc(s: string, c: char, v: nat)
    requires (forall i: nat | i < |s| :: '0' <= s[i] <= '9') && '0' <= c <= '9'
    ensures Digits(s + [c], v) == 10 * Digits(s, v) + (c as nat - '0' as nat)
  {
    if s == "" {
      assert s + [c] == [c];
      assert [c][1..] == "";
    } else {
      assert (s + [c])[1..] == s[1..] + [c];
      DigitsSnoc(s[1..], c, 10 * v + (s[0] as nat - '0' as nat));
    }
  }

  lemma {:induction false} DigitsOfDecimal(n: nat)
    ensures Digits(Decimal(n), 0) == n
  {
    var c := '0' + (n % 10) as char;
    if n < 10 {
      assert [c][1..] == "";
    } else {
      DigitsOfDecimal(n / 10);
      DigitsSnoc(Decimal(n / 10), c, 0);
    }
  }

  /** A printed number is read back, or is outside the range of int. */
  lemma AtoiOfDecimal(n: nat)
    ensures Atoi(Decimal(n)) == if n < INT_LIMIT then Some(n) else None
  {
    DigitsOfDecimal(n);
    var s := Decimal(n);
    assert s[0] != ' ';
    assert SkipSpaces(s) == s;
  }

  lemma {:induction false} DecimalLength(n: nat, k: nat, limit: nat)
    requires n < limit && limit == Pow10(k) && k > 0
    ensures |Decimal(n)| <= k
  {
    if n >= 10 {
      assert k > 1;
      DecimalLength(n / 10, k - 1, Pow10(k - 1));
    }
  }

  function Pow10(k: nat): nat {
    if k == 0 then 1 else 10 * Pow10(k - 1)
  }

  // ---------- the printed form ----------

  function NameField(name: Option<CString>): string {
    if name.Some? then NAME_KEY + name.value else ""
  }

  function LengthField(length: nat): string {
    if length > 0 then LENGTH_KEY + Decimal(length) else ""
  }

  /** The URI of a magnet. */
  function Uri(m: FileMagnet): string {
    BASE + Hex(m.hash.bytes) + NameField(m.name) + LengthField(m.length)
  }

  // ---------- the regular expressions of the parser ----------

  predicate StartsWith(s: string, p: string) {
    |p| <= |s| && s[..|p|] == p
  }

  /** The leftmost match of the fixed text p. */
  function Find(s: string, p: string): (r: Option<nat>)
    ensures r.Some? ==> r.value + |p| <= |s| && s[r.value..r.value + |p|] == p
  {
    if StartsWith(s, p) then Some(0)
    else if s == "" then None
    else
      match Find(s[1..], p)
      case None => None
      case Some(i) => Some(i + 1)
  }

  /** The longest match of [^&]* at the start. */
  function UntilAmpersand(s: string): (r: string)
    ensures |r| <= |s| && r == s[..|r|] && '&' !in r
    ensures |r| < |s| ==> s[|r|] == '&'
  {
    if s == "" || s[0] == '&' then "" else [s[0]] + UntilAmpersand(s[1..])
  }

  /** The group of the regular expression key([^&]*). */
  function Field(s: CString, key: string): Option<CString> {
    match Find(s, key)
    case None => None
    case Some(i) => Some(UntilAmpersand(s[i + |key|..]))
  }

  /** The anchored regular expression: the fixed text and 64 hexadecimal digits. */
  predicate IsMagnet(s: string) {
    && StartsWith(s, BASE)
    && |s| >= |BASE| + 2 * ID_LENGTH
    && AllHex(s[|BASE|..|BASE| + 2 * ID_LENGTH])
  }

  // Undefined: the source copies past its number buffer, or asks atoi for a number outside int.
  datatype Outcome = NotAMagnet | Undefined | Parsed(magnet: FileMagnet)

  /** The conversion of the int that atoi returns to size_t. */
  function ToSize(n: int): Size
    requires -INT_LIMIT <= n < INT_LIMIT
  {
    if n < 0 then n + SIZE_RANGE else n
  }

  /** parse_magnet_from_uri. `junk` is what the new struct holds where a length belongs: the
      source leaves it there when the URI has no length. */
  function Parse(s: CString, len: nat, junk: Size): Outcome {
    if len < 1 || !IsMagnet(s) then NotAMagnet
    else
      var hash := HashID(UnHex(s[|BASE|..|BASE| + 2 * ID_LENGTH]));
      var name := Field(s, NAME_KEY);
      match Field(s, LENGTH_KEY)
      case None => Parsed(FileMagnet(hash, name, junk))
      case Some(number) =>
        if |number| >= NUMBER_BUFFER then Undefined
        else
          match Atoi(number)
          case None => Undefined
          case Some(n) => Parsed(FileMagnet(hash, name, ToSize(n)))
  }

  // ---------- what the parser's result means ----------

  ghost predicate NoneBefore(s: string, key: string, n: nat)
    requires n <= |s| + 1
  {
    forall i: nat | i < n :: !StartsWith(s[i..], key)
  }

  /** value stands behind the first key of s, up to the next '&' or the end. */
  ghost predicate ValueAt(s: string, key: string, value: string, a: string, b: string) {
    && s == a + key + value + b
    && '&' !in value && (b == "" || b[0] == '&')
    && NoneBefore(s, key, |a|)
  }

  /** The value of the field, or None when there is no such key. */
  ghost predicate HasValue(s: string, key: string, value: Option<CString>) {
    match value
    case None => NoneBefore(s, key, |s| + 1)
    case Some(v) => exists a, b :: ValueAt(s, key, v, a, b)
  }

  lemma {:induction false} FindIs(s: string, p: string)
    ensures match Find(s, p)
            case None => NoneBefore(s, p, |s| + 1)
            case Some(r) => StartsWith(s[r..], p) && NoneBefore(s, p, r)
  {
    assert s[0..] == s;
    if !StartsWith(s, p) && s != "" {
      FindIs(s[1..], p);
      assert forall i: nat | 0 < i <= |s| :: s[i..] == s[1..][i - 1..];
    }
  }

  lemma FirstIsFind(s: string, key: string, r: nat)
    requires r <= |s| && StartsWith(s[r..], key) && NoneBefore(s, key, r)
    ensures Find(s, key) == Some(r)
  {
    FindIs(s, key);
  }

  /** The group that the regular expression matches is the value of the field. */
  lemma FieldIs(s: CString, key: string, value: Option<CString>)
    ensures HasValue(s, key, value) <==> Field(s, key) == value
  {
    FindIs(s, key);
    if Find(s, key).Some? {
      FieldIsValue(s, key, Find(s, key).value);
    }
    if value.Some? && HasValue(s, key, value) {
      var a, b :| ValueAt(s, key, value.value, a, b);
      ValueIsField(s, key, value.value, a, b);
    }
  }

  lemma Assembled(s: string, key: string, r: nat, tail: string, v: string, b: string)
    requires r + |key| <= |s| && s[r..r + |key|] == key && tail == s[r + |key|..] && tail == v + b
    ensures s == s[..r] + key + v + b && |s[..r]| == r
  {
    assert s == s[..r] + s[r..r + |key|] + s[r + |key|..];
  }

  lemma UntilAmpersandSplits(s: string) returns (b: string)
    ensures s == UntilAmpersand(s) + b && (b == "" || b[0] == '&')
  {
    b := s[|UntilAmpersand(s)|..];
  }

  lemma FieldIsValue(s: CString, key: string, r: nat)
    requires Find(s, key) == Some(r) && NoneBefore(s, key, r)
    ensures HasValue(s, key, Field(s, key))
  {
    var tail := s[r + |key|..];
    var v := UntilAmpersand(tail);
    var b := UntilAmpersandSplits(tail);
    Assembled(s, key, r, tail, v, b);
    assert ValueAt(s, key, v, s[..r], b);
  }

  lemma Slices(s: string, a: string, key: string, v: string, b: string)
    requires s == a + key + v + b
    ensures |a| + |key| <= |s| && StartsWith(s[|a|..], key) && s[|a| + |key|..] == v + b
  {
    assert s[|a|..] == key + (v + b);
    assert (key + (v + b))[..|key|] == key;
  }

  lemma ValueIsField(s: CString, key: string, v: CString, a: string, b: string)
    requires ValueAt(s, key, v, a, b)
    ensures Field(s, key) == Some(v)
  {
    Slices(s, a, key, v, b);
    FirstIsFind(s, key, |a|);
    UntilAmpersandIs(v, b);
  }

  /** What the text behind the keys means, when it is a magnet's. */
  ghost predicate FieldsMean(s: CString, junk: Size, r: Outcome, name: Option<CString>, number: Option<CString>)
    requires IsMagnet(s)
  {
    && !r.NotAMagnet?
    && (r.Undefined? <==> number.Some? && (|number.value| >= NUMBER_BUFFER || Atoi(number.value).None?))
    && (r.Parsed? ==>
          && ReadsAs(s[|BASE|..|BASE| + 2 * ID_LENGTH], r.magnet.hash.bytes)
          && r.magnet.name == name
          && r.magnet.length == (if number.None? then junk else ToSize(Atoi(number.value).value)))
  }

  /** The meaning of the parser's result, field by field. */
  ghost predicate Means(s: CString, len: nat, junk: Size, r: Outcome) {
    if len < 1 || !IsMagnet(s) then r == NotAMagnet
    else
      exists name, number ::
        HasValue(s, NAME_KEY, name) && HasValue(s, LENGTH_KEY, number) && FieldsMean(s, junk, r, name, number)
  }

  lemma {:induction false} UnHexAt(s: string, k: nat)
    requires AllHex(s) && |s| % 2 == 0 && 2 * k < |s|
    ensures UnHex(s)[k] == ByteOf(s[2 * k], s[2 * k + 1])
  {
    if k > 0 {
      UnHexAt(s[2..], k - 1);
    }
  }

  /** The bytes are those that %2hhx reads from the digits, two by two. */
  ghost predicate ReadsAs(digits: string, bytes: seq<bv8>)
    requires AllHex(digits) && |digits| == 2 * |bytes|
  {
    forall k: nat | k < |bytes| :: bytes[k] == ByteOf(digits[2 * k], digits[2 * k + 1])
  }

  lemma ReadsAsUnHex(digits: string, bytes: seq<bv8>)
    requires AllHex(digits) && |digits| == 2 * |bytes|
    ensures ReadsAs(digits, bytes) <==> bytes == UnHex(digits)
  {
    forall k: nat | k < |bytes| ensures UnHex(digits)[k] == ByteOf(digits[2 * k], digits[2 * k + 1]) {
      UnHexAt(digits, k);
    }
  }

  /** The parser's result is the one with this meaning. */
  lemma ParseMeans(s: CString, len: nat, junk: Size, r: Outcome)
    ensures Means(s, len, junk, r) <==> r == Parse(s, len, junk)
  {
    if len >= 1 && IsMagnet(s) {
      var name, number := Field(s, NAME_KEY), Field(s, LENGTH_KEY);
      forall x ensures HasValue(s, NAME_KEY, x) <==> x == name {
        FieldIs(s, NAME_KEY, x);
      }
      forall x ensures HasValue(s, LENGTH_KEY, x) <==> x == number {
        FieldIs(s, LENGTH_KEY, x);
      }
      FieldsParse(s, len, junk, r);
    }
  }

  lemma FieldsParse(s: CString, len: nat, junk: Size, r: Outcome)
    requires len >= 1 && IsMagnet(s)
    ensures FieldsMean(s, junk, r, Field(s, NAME_KEY), Field(s, LENGTH_KEY)) <==> r == Parse(s, len, junk)
  {
    if r.Parsed? {
      ReadsAsUnHex(s[|BASE|..|BASE| + 2 * ID_LENGTH], r.magnet.hash.bytes);
    }
  }

  // ---------- the round trip ----------

  lemma StartsElsewhere(s: string, p: string)
    requires s != "" && p != "" && s[0] != p[0]
    ensures !StartsWith(s, p)
  {
    assert |p| <= |s| ==> s[..|p|][0] == s[0];
  }

  lemma {:induction false} FindSkips(a: string, b: string, p: string)
    requires '&' !in a && p != "" && p[0] == '&'
    ensures Find(a + b, p) == match Find(b, p) case None => None case Some(i) => Some(|a| + i)
  {
    if a == "" {
      assert a + b == b;
    } else {
      StartsElsewhere(a + b, p);
      assert (a + b)[1..] == a[1..] + b;
      FindSkips(a[1..], b, p);
    }
  }

  lemma {:induction false} UntilAmpersandIs(a: string, b: string)
    requires '&' !in a && (b == "" || b[0] == '&')
    ensures UntilAmpersand(a + b) == a
  {
    if a == "" {
      assert a + b == b;
    } else {
      assert (a + b)[1..] == a[1..] + b;
      UntilAmpersandIs(a[1..], b);
    }
  }

  lemma SuffixOf(a: string, b: string, k: nat)
    requires k <= |b|
    ensures (a + b)[|a| + k..] == b[k..]
  {
  }

  /** The field is the first one of the text that follows a without '&'. */
  lemma FieldAfter(a: CString, b: CString, key: string)
    requires '&' !in a && key != "" && key[0] == '&'
    ensures Field(a + b, key) == Field(b, key)
  {
    FindSkips(a, b, key);
    if Find(b, key).Some? {
      SuffixOf(a, b, Find(b, key).value + |key|);
    }
  }

  /** A field of the text that starts with its key. */
  lemma FieldHere(value: CString, rest: CString, key: CString)
    requires '&' !in value && (rest == "" || rest[0] == '&')
    ensures Field(key + value + rest, key) == Some(value)
  {
    var s := key + value + rest;
    assert s[..|key|] == key;
    assert s[|key|..] == value + rest;
    UntilAmpersandIs(value, rest);
  }

  lemma FieldStep(s: CString, key: string)
    requires s != "" && !StartsWith(s, key)
    ensures Field(s, key) == Field(s[1..], key)
  {
    if Find(s[1..], key).Some? {
      var i := Find(s[1..], key).value;
      assert s[i + 1 + |key|..] == s[1..][i + |key|..];
    }
  }

  lemma OtherKey(s: string, key: string, other: string)
    requires |s| >= 4 && s[..4] == other && |key| == 4 && key != other
    ensures !StartsWith(s, key)
  {
  }

  /** Text that starts with another key has the field that follows it. */
  lemma FieldThere(value: CString, rest: CString, key: CString, other: CString)
    requires '&' !in value && |key| == |other| == 4 && key[0] == other[0] == '&' && key != other && '&' !in other[1..]
    ensures Field(other + value + rest, key) == Field(rest, key)
  {
    var s := other + value + rest;
    OtherKey(s, key, other);
    FieldStep(s, key);
    var a := other[1..] + value;
    assert s[1..] == a + rest;
    FieldAfter(a, rest, key);
  }

  /** The text before the fields. */
  function Head(hash: HashID): (s: CString)
    ensures '&' !in s && |s| == |BASE| + 2 * ID_LENGTH
  {
    NoMarkInHex(Hex(hash.bytes));
    BASE + Hex(hash.bytes)
  }

  lemma NoMarkInHex(s: string)
    requires AllHex(s)
    ensures '&' !in s && '\0' !in s
  {
  }

  lemma HeadIsParsed(hash: HashID, rest: CString)
    ensures IsMagnet(Head(hash) + rest)
    ensures UnHex((Head(hash) + rest)[|BASE|..|BASE| + 2 * ID_LENGTH]) == hash.bytes
  {
    var s := Head(hash) + rest;
    assert s[..|BASE|] == BASE;
    assert s[|BASE|..|BASE| + 2 * ID_LENGTH] == Hex(hash.bytes);
    UnHexOfHex(hash.bytes);
  }

  lemma NoMarkInDecimal(n: nat)
    ensures '&' !in Decimal(n) && '\0' !in Decimal(n)
  {
  }

  function Fields(name: Option<CString>, length: nat): (s: CString)
    ensures Fields(name, length) == NameField(name) + LengthField(length)
  {
    NoMarkInDecimal(length);
    NameField(name) + LengthField(length)
  }

  lemma LengthFieldIs(length: nat)
    ensures '\0' !in LengthField(length)
    ensures Field(LengthField(length), NAME_KEY) == None
    ensures Field(LengthField(length), LENGTH_KEY) == if length > 0 then Some(Decimal(length)) else None
  {
    NoMarkInDecimal(length);
    if length > 0 {
      var d := Decimal(length);
      assert LENGTH_KEY + d + "" == LengthField(length);
      FieldThere(d, "", NAME_KEY, LENGTH_KEY);
      FieldHere(d, "", LENGTH_KEY);
    }
  }

  /** The parser finds the name up to its first '&'. */
  lemma NameIsParsed(name: Option<CString>, length: nat)
    ensures Field(Fields(name, length), NAME_KEY) ==
            match name case None => None case Some(s) => Some(UntilAmpersand(s))
  {
    LengthFieldIs(length);
    match name
    case None =>
      assert Fields(name, length) == LengthField(length);
    case Some(s) =>
      var u := UntilAmpersand(s);
      var rest := s[|u|..] + LengthField(length);
      assert Fields(name, length) == NAME_KEY + u + rest;
      FieldHere(u, rest, NAME_KEY);
  }

  lemma {:induction false} UntilStops(s: string, rest: string)
    requires rest == "" || rest[0] == '&'
    ensures UntilAmpersand(s + rest) == UntilAmpersand(s)
  {
    if s == "" {
      assert s + rest == rest;
    } else if s[0] != '&' {
      assert (s + rest)[1..] == s[1..] + rest;
      UntilStops(s[1..], rest);
    }
  }

  lemma KeyStays(s: CString, rest: CString, key: CString)
    requires s != "" && (rest == "" || rest[0] == '&') && |key| == 4 && '&' !in key[1..]
    ensures StartsWith(s + rest, key) <==> StartsWith(s, key)
  {
    if |s| >= 4 {
      assert (s + rest)[..4] == s[..4];
    } else if rest != "" && |s + rest| >= 4 {
      assert (s + rest)[..4][|s|] == '&';
      assert key[1..][|s| - 1] == key[|s|];
    }
  }

  /** A field of text that ends at a mark is found there, or behind it. */
  lemma {:induction false} FieldInside(s: CString, rest: CString, key: CString)
    requires (rest == "" || rest[0] == '&') && |key| == 4 && key[0] == '&' && '&' !in key[1..]
    ensures Field(s + rest, key) == if Field(s, key).Some? then Field(s, key) else Field(rest, key)
    decreases |s|
  {
    if s == "" {
      assert s + rest == rest;
    } else {
      KeyStays(s, rest, key);
      assert (s + rest)[1..] == s[1..] + rest;
      if StartsWith(s, key) {
        assert (s + rest)[4..] == s[4..] + rest;
        UntilStops(s[4..], rest);
      } else {
        FieldStep(s, key);
        FieldStep(s + rest, key);
        FieldInside(s[1..], rest, key);
      }
    }
  }

  /** The number that the parser finds in the printed form: one that the name has behind the key of
      the length, or else the printed length. */
  function NumberIn(name: Option<CString>, length: nat): Option<CString> {
    NoMarkInDecimal(length);
    if name.Some? && Field(name.value, LENGTH_KEY).Some? then Field(name.value, LENGTH_KEY)
    else if length > 0 then Some(Decimal(length))
    else None
  }

  lemma NumberIsParsed(name: Option<CString>, length: nat)
    ensures Field(Fields(name, length), LENGTH_KEY) == NumberIn(name, length)
  {
    LengthFieldIs(length);
    match name
    case None =>
      assert Fields(name, length) == LengthField(length);
    case Some(s) =>
      var rest: CString := LengthField(length);
      assert Fields(name, length) == NAME_KEY + "" + (s + rest);
      FieldThere("", s + rest, LENGTH_KEY, NAME_KEY);
      FieldInside(s, rest, LENGTH_KEY);
  }

  lemma {:induction false} NoField(s: CString, key: string)
    requires '&' !in s && key != "" && key[0] == '&'
    ensures Field(s, key) == None
  {
    if s != "" {
      FieldStep(s, key);
      NoField(s[1..], key);
    }
  }

  lemma UriIs(m: FileMagnet)
    ensures Uri(m) == Head(m.hash) + Fields(m.name, m.length) && '\0' !in Uri(m)
  {
    assert Uri(m) == Head(m.hash) + Fields(m.name, m.length);
  }

  /** Every length fits the buffers that print and parse numbers. */
  lemma SizeFits(n: Size)
    ensures |Decimal(n)| <= 20 < NUMBER_BUFFER
  {
    assert Pow10(5) == 100_000;
    assert Pow10(10) == 10_000_000_000;
    assert Pow10(15) == 1_000_000_000_000_000;
    assert Pow10(20) == 100_000_000_000_000_000_000;
    DecimalLength(n, 20, Pow10(20));
  }

  /** Parsing the printed form finds the hash and the two fields. */
  lemma PrintedFields(m: FileMagnet)
    ensures '\0' !in Uri(m) && Uri(m) != "" && IsMagnet(Uri(m))
    ensures UnHex(Uri(m)[|BASE|..|BASE| + 2 * ID_LENGTH]) == m.hash.bytes
    ensures Field(Uri(m), NAME_KEY) == NameIn(m.name)
    ensures Field(Uri(m), LENGTH_KEY) == NumberIn(m.name, m.length)
  {
    var rest := Fields(m.name, m.length);
    UriIs(m);
    HeadIsParsed(m.hash, rest);
    FieldAfter(Head(m.hash), rest, NAME_KEY);
    FieldAfter(Head(m.hash), rest, LENGTH_KEY);
    NameIsParsed(m.name, m.length);
    NumberIsParsed(m.name, m.length);
  }

  /** The name that the parser finds: up to the first '&'. */
  function NameIn(name: Option<CString>): Option<CString> {
    match name case None => None case Some(s) => Some(UntilAmpersand(s))
  }

  /** The name has no '&'. */
  predicate Plain(name: Option<CString>) {
    name.Some? ==> '&' !in name.value
  }

  /** What the parser makes of every printed magnet: the hash comes back, the name is cut at its first
      '&', and the length is the printed one unless the name has a length field of its own. */
  lemma PrintedParses(m: FileMagnet, junk: Size)
    ensures '\0' !in Uri(m)
    ensures var r, number := Parse(Uri(m), |Uri(m)|, junk), NumberIn(m.name, m.length);
            if number.None? then r == Parsed(FileMagnet(m.hash, NameIn(m.name), junk))
            else if |number.value| >= NUMBER_BUFFER || Atoi(number.value).None? then r == Undefined
            else r == Parsed(FileMagnet(m.hash, NameIn(m.name), ToSize(Atoi(number.value).value)))
  {
    PrintedFields(m);
    assert HashID(UnHex(Uri(m)[|BASE|..|BASE| + 2 * ID_LENGTH])) == m.hash;
  }

  /** A magnet whose name is plain comes back but for its length, which comes back, is made up, or is
      out of the range of int. */
  lemma PlainParses(m: FileMagnet, junk: Size)
    requires Plain(m.name)
    ensures '\0' !in Uri(m)
    ensures var r := Parse(Uri(m), |Uri(m)|, junk);
            if m.length == 0 then r == Parsed(m.(length := junk))
            else if m.length < INT_LIMIT then r == Parsed(m)
            else r == Undefined
  {
    PrintedParses(m, junk);
    SizeFits(m.length);
    AtoiOfDecimal(m.length);
    if m.name.Some? {
      NoField(m.name.value, LENGTH_KEY);
      UntilAmpersandIs(m.name.value, "");
      assert m.name.value + "" == m.name.value;
    }
  }

  /** Printing and parsing gives the magnet back, when `junk` is in the memory of the new struct. */
  ghost predicate Returned(m: FileMagnet, junk: Size) {
    '\0' !in Uri(m) && Parse(Uri(m), |Uri(m)|, junk) == Parsed(m)
  }

  /** Printing and parsing gives the magnet back, whatever memory holds. */
  ghost predicate ComesBack(m: FileMagnet) {
    forall junk: Size :: Returned(m, junk)
  }

  /** The magnets that come back are exactly those whose name has no '&' and whose length is
      positive and an int. */
  lemma RoundTripIff(m: FileMagnet)
    ensures ComesBack(m) <==> Plain(m.name) && 0 < m.length < INT_LIMIT
  {
    if Plain(m.name) {
      forall junk: Size ensures Returned(m, junk) <==> m.length < INT_LIMIT && (m.length > 0 || junk == 0) {
        PlainParses(m, junk);
      }
      assert Returned(m, 1) ==> 0 < m.length < INT_LIMIT;
    } else {
      PrintedParses(m, 0);
      assert !Returned(m, 0);
    }
  }

  /** A magnet that the parser made has no '&' in its name, so it comes back from a second trip
      exactly when its length is positive and an int. */
  lemma ParsedComesBack(s: CString, len: nat, junk: Size)
    requires Parse(s, len, junk).Parsed?
    ensures var m := Parse(s, len, junk).magnet;
            ComesBack(m) <==> 0 < m.length < INT_LIMIT
  {
    RoundTripIff(Parse(s, len, junk).magnet);
  }
}
