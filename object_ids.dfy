/** The store's 12-byte object identifiers and their 24-character hex text.
    The driver's ObjectID constructor accepts hex digits of either case; the
    identifier's string form is always lower-case. */
module ObjectIds {
  import opened Results

  type Byte = x: int | 0 <= x < 256

  type OidBytes = s: seq<Byte> | |s| == 12 witness [0, 0, 0, 0, 0, 0, 0, 0, 0, 0, 0, 0]

  const OidTextLength := 24

  predicate IsHexChar(c: char) {
    '0' <= c <= '9' || 'a' <= c <= 'f' || 'A' <= c <= 'F'
  }

  function HexDigit(d: nat): (c: char)
    requires d < 16
    ensures IsHexChar(c)
  {
    "0123456789abcdef"[d]
  }

  function HexValue(c: char): (d: nat)
    requires IsHexChar(c)
    ensures d < 16
  {
    if '0' <= c <= '9' then c as int - '0' as int
    else if 'a' <= c <= 'f' then c as int - 'a' as int + 10
    else c as int - 'A' as int + 10
  }

  /** Lower-case form of a hex digit. */
  function LowerHex(c: char): char {
    if 'A' <= c <= 'F' then (c as int - 'A' as int + 'a' as int) as char else c
  }

  /** `(string) $oid`: two lower-case hex digits per byte, high nibble first. */
  function HexOf(id: OidBytes): (s: string)
    ensures |s| == OidTextLength
  {
    seq(OidTextLength, i requires 0 <= i < OidTextLength =>
      if i % 2 == 0 then HexDigit(id[i / 2] / 16) else HexDigit(id[i / 2] % 16))
  }

  predicate IsObjectIdText(s: string) {
    |s| == OidTextLength && forall i :: 0 <= i < |s| ==> IsHexChar(s[i])
  }

  /** `new ObjectID($s)`: the identifier a valid 24-digit hex string denotes,
      or None where the driver throws. */
  function ParseObjectId(s: string): (r: Option<OidBytes>)
    ensures r.Some? <==> IsObjectIdText(s)
  {
    if IsObjectIdText(s) then
      Some(seq(12, i requires 0 <= i < 12 => (HexValue(s[2 * i]) * 16 + HexValue(s[2 * i + 1])) as Byte))
    else None
  }

  lemma HexDigitValue(d: nat)
    requires d < 16
    ensures HexValue(HexDigit(d)) == d
  {
  }

  lemma HexOfAt(id: OidBytes, i: nat)
    requires i < 12
    ensures HexOf(id)[2 * i] == HexDigit(id[i] / 16)
    ensures HexOf(id)[2 * i + 1] == HexDigit(id[i] % 16)
  {
    assert (2 * i) % 2 == 0 && (2 * i) / 2 == i;
    assert (2 * i + 1) % 2 == 1 && (2 * i + 1) / 2 == i;
  }

  lemma HexPairValue(b: Byte)
    ensures HexValue(HexDigit(b / 16)) * 16 + HexValue(HexDigit(b % 16)) == b
  {
    HexDigitValue(b / 16);
    HexDigitValue(b % 16);
  }

  /** Printing an identifier and parsing the text gives the identifier back. */
  lemma ParseHexOf(id: OidBytes)
    ensures ParseObjectId(HexOf(id)) == Some(id)
  {
    var s := HexOf(id);
    assert IsObjectIdText(s);
    var parsed := ParseObjectId(s).value;
    forall i | 0 <= i < 12
      ensures parsed[i] == id[i]
    {
      HexOfAt(id, i);
      HexPairValue(id[i]);
    }
    assert parsed == id;
  }

  lemma HexDigitOfValue(c: char)
    requires IsHexChar(c)
    ensures HexDigit(HexValue(c)) == LowerHex(c)
  {
  }

  /** Parsing and printing back yields the lower-case form of the text: the
      only information a parse loses is the case of the hex letters. */
  lemma HexOfParse(s: string)
    requires IsObjectIdText(s)
    ensures HexOf(ParseObjectId(s).value) == seq(|s|, i requires 0 <= i < |s| => LowerHex(s[i]))
  {
    var id := ParseObjectId(s).value;
    forall i | 0 <= i < OidTextLength
      ensures HexOf(id)[i] == LowerHex(s[i])
    {
      var j := i / 2;
      var hi, lo := HexValue(s[2 * j]), HexValue(s[2 * j + 1]);
      assert id[j] == hi * 16 + lo;
      assert id[j] / 16 == hi && id[j] % 16 == lo;
      HexDigitOfValue(s[2 * j]);
      HexDigitOfValue(s[2 * j + 1]);
    }
  }
}
