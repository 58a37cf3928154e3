/** save_magnet_to_uri and parse_magnet_from_uri of src/magnet.c on their buffers. */
module MagnetUri {
  import opened Ids
  import opened Magnet
  import opened MagnetText
  import opened Options

  const HASH_DIGITS: nat := 2 * ID_LENGTH

  /** The buffer holds the C string s. */
  ghost predicate HoldsString(buf: seq<char>, s: CString) {
    |s| < |buf| && buf[..|s|] == s && buf[|s|] == '\0'
  }

  /** strlen */
  method StrLen(buf: array<char>, ghost s: CString) returns (n: nat)
    requires HoldsString(buf[..], s)
    ensures n == |s|
  {
    n := 0;
    while buf[n] != '\0'
      invariant n <= |s|
      decreases |s| - n
    {
      assert n < |s| ==> buf[n] == s[n];
      n := n + 1;
    }
  }

  /** The part of src that strncat appends when it may append n characters. */
  function Cut(src: CString, n: nat): CString {
    if n < |src| then src[..n] else src
  }

  /** strncat with the room that is left in the buffer as its limit. */
  method Strncat(buf: array<char>, ghost s: CString, src: CString) returns (ghost u: CString)
    requires HoldsString(buf[..], s)
    modifies buf
    ensures u == s + Cut(src, buf.Length - |s| - 1)
    ensures HoldsString(buf[..], u)
  {
    var len := StrLen(buf, s);
    var room := buf.Length - len - 1;
    var i := 0;
    while i < room && i < |src|
      invariant i <= room && i <= |src|
      invariant buf[..len + i] == s + src[..i]
    {
      buf[len + i] := src[i];
      i := i + 1;
    }
    buf[len + i] := '\0';
    u := s + src[..i];
  }

  /** The loop of sprintf calls that prints the hash. */
  method PrintHash(hash: HashID) returns (hex: array<char>)
    ensures fresh(hex) && hex.Length == HASH_DIGITS + 1
    ensures hex[..HASH_DIGITS] == Hex(hash.bytes)
  {
    hex := new char[HASH_DIGITS + 1];
    for i := 0 to ID_LENGTH
      invariant forall j: nat | j < 2 * i :: hex[j] == Hex(hash.bytes)[j]
    {
      var b := hash.bytes[i];
      HexAt(hash.bytes, i);
      hex[2 * i], hex[2 * i + 1] := HexDigit(b as nat / 16), HexDigit(b as nat % 16);
    }
    hex[HASH_DIGITS] := '\0';
  }

  /** The size that save_magnet_to_uri allocates. */
  method UriSize(m: FileMagnet) returns (size: nat)
    ensures size == |Uri(m)| + 1
  {
    size := |BASE| + HASH_DIGITS + 1;
    if m.length > 0 {
      size := size + |Decimal(m.length)| + 4;
    }
    if m.name.Some? {
      size := size + |m.name.value| + 4;
    }
  }

  /** save_magnet_to_uri: a new buffer that the URI and its terminator fill, or NULL for NULL. */
  method SaveMagnetToUri(magnet: Option<FileMagnet>) returns (uri: array?<char>)
    ensures uri == null <==> magnet == None
    ensures magnet.Some? ==>
              fresh(uri) && uri.Length > 0 && uri[uri.Length - 1] == '\0' && '\0' !in uri[..uri.Length - 1]
              && uri[..uri.Length - 1] == Uri(magnet.value) && PrintsAs(magnet.value, uri[..uri.Length - 1])
  {
    if magnet == None {
      return null;
    }
    uri := Save(magnet.value);
    UriPrints(magnet.value);
    assert uri[..uri.Length - 1] == Uri(magnet.value);
  }

  /** The rest of save_magnet_to_uri. */
  method Save(m: FileMagnet) returns (uri: array<char>)
    ensures fresh(uri)
    ensures '\0' !in Uri(m) && uri[..] == Uri(m) + ['\0']
  {
    UriIs(m);
    var size := UriSize(m);
    uri := new char[size];
    uri[0] := '\0';
    var hex := PrintHash(m.hash);
    ghost var s := Strncat(uri, "", BASE);
    NoMarkInHex(hex[..HASH_DIGITS]);
    s := Strncat(uri, s, hex[..HASH_DIGITS]);
    assert s == Head(m.hash);
    s := AppendName(m.name, uri, s);
    s := AppendLength(m.length, uri, s);
    assert uri[..] == uri[..|s|] + [uri[|s|]];
  }

  /** The name, if there is one. */
  method AppendName(name: Option<CString>, uri: array<char>, ghost s: CString) returns (ghost u: CString)
    requires HoldsString(uri[..], s) && |s| + |NameField(name)| < uri.Length
    modifies uri
    ensures HoldsString(uri[..], u) && u == s + NameField(name)
  {
    u := s;
    if name.Some? {
      u := AppendField(uri, s, NAME_KEY, name.value);
    }
  }

  /** The length, if it is not zero. */
  method AppendLength(length: nat, uri: array<char>, ghost s: CString) returns (ghost u: CString)
    requires HoldsString(uri[..], s) && |s| + |LengthField(length)| < uri.Length
    modifies uri
    ensures HoldsString(uri[..], u) && u == s + LengthField(length)
  {
    u := s;
    if length > 0 {
      NoMarkInDecimal(length);
      u := AppendField(uri, s, LENGTH_KEY, Decimal(length));
    }
  }

  /** The two strncat calls of a field, when there is room for them. */
  method AppendField(uri: array<char>, ghost s: CString, key: CString, value: CString) returns (ghost u: CString)
    requires HoldsString(uri[..], s) && |s| + |key| + |value| < uri.Length
    modifies uri
    ensures HoldsString(uri[..], u) && u == s + (key + value)
  {
    u := Strncat(uri, s, key);
    u := Strncat(uri, u, value);
  }

  /** The loop of sscanf calls that reads the hash. */
  method ReadHash(s: string) returns (hash: HashID)
    requires AllHex(s) && |s| == HASH_DIGITS
    ensures hash == HashID(UnHex(s))
  {
    var bytes := new bv8[ID_LENGTH];
    for i := 0 to ID_LENGTH
      invariant forall k: nat | k < i :: bytes[k] == UnHex(s)[k]
    {
      UnHexAt(s, i);
      bytes[i] := ByteOf(s[2 * i], s[2 * i + 1]);
    }
    assert bytes[..] == UnHex(s);
    hash := HashID(bytes[..]);
  }

  /** The memcpy of a match into a buffer, and the terminator behind it. */
  method CopyMatch(src: CString, buf: array<char>)
    requires |src| < buf.Length
    modifies buf
    ensures HoldsString(buf[..], src)
  {
    for i := 0 to |src|
      invariant buf[..i] == src[..i]
    {
      buf[i] := src[i];
    }
    buf[|src|] := '\0';
  }

  /** The string in a buffer. */
  method Text(buf: array<char>, ghost s: CString) returns (t: CString)
    requires HoldsString(buf[..], s)
    ensures t == s
  {
    var n := StrLen(buf, s);
    t := buf[..n];
  }

  /** The length in the group of the second field. It is copied to a buffer of 32 characters:
      a longer one does not fit, and undefined behaviour is None. */
  method ReadLength(number: CString) returns (length: Option<Size>)
    ensures length.Some? <==> |number| < NUMBER_BUFFER && Atoi(number).Some?
    ensures length.Some? ==> length.value == ToSize(Atoi(number).value)
  {
    if |number| >= NUMBER_BUFFER {
      return None;
    }
    var fileSize := new char[NUMBER_BUFFER];
    CopyMatch(number, fileSize);
    var text := Text(fileSize, number);
    var n := Atoi(text);
    return match n case None => None case Some(v) => Some(ToSize(v));
  }

  /** parse_magnet_from_uri, with the matches that regexec finds. The result means what the text
      says, and a printed magnet comes back. */
  method ParseMagnetFromUri(contents: CString, len: nat, junk: Size) returns (r: Outcome)
    ensures TextMeans(contents, len, junk, r)
    ensures forall m: FileMagnet |
              contents == Uri(m) && len == |contents| && Plain(m.name) && 0 < m.length < INT_LIMIT :: r == Parsed(m)
  {
    ghost var expected := Parse(contents, len, junk);
    ParseTextMeans(contents, len, junk, expected);
    PrintedComesBack(contents, len, junk);
    if len < 1 || !IsMagnet(contents) {
      return NotAMagnet;
    }
    var digits := contents[|BASE|..|BASE| + HASH_DIGITS];
    NoMarkInHex(digits);
    var buf := new char[HASH_DIGITS + 1];
    CopyMatch(digits, buf);
    var hash := ReadHash(buf[..HASH_DIGITS]);
    var name := Field(contents, NAME_KEY);
    if name.Some? {
      var displayName := new char[|name.value| + 1];
      CopyMatch(name.value, displayName);
      var text := Text(displayName, name.value);
      name := Some(text);
    }
    var number := Field(contents, LENGTH_KEY);
    var length := Some(junk);
    if number.Some? {
      length := ReadLength(number.value);
    }
    r := if length.None? then Undefined else Parsed(FileMagnet(hash, name, length.value));
  }

  lemma PrintedComesBack(contents: CString, len: nat, junk: Size)
    ensures forall m: FileMagnet |
              contents == Uri(m) && len == |contents| && Plain(m.name) && 0 < m.length < INT_LIMIT ::
              Parse(contents, len, junk) == Parsed(m)
  {
    forall m: FileMagnet | contents == Uri(m) && len == |contents| && Plain(m.name) && 0 < m.length < INT_LIMIT
      ensures Parse(contents, len, junk) == Parsed(m)
    {
      PlainParses(m, junk);
    }
  }
}
