/** PHP arrays as the tool sees a decoded document: an ordered list of
    (key, value) entries whose values are scalars, object identifiers or
    nested arrays. */
module PhpValues {
  import opened Results
  import opened Decimal
  import opened ObjectIds

  /** PHP array keys are integers or strings. */
  datatype Key = Index(n: int) | Name(s: string)

  datatype Value =
    | Null
    | Bool(b: bool)
    | Int(i: int)
    | Str(s: string)
    | ObjectId(id: OidBytes)
    | Arr(entries: seq<Entry>)

  datatype Entry = Entry(key: Key, val: Value)

  /** What `new ObjectID($v)` can throw: an InvalidArgumentException for text
      that is not 24 hex digits, a TypeError for an array. */
  datatype Error = InvalidObjectId(text: string) | TypeError

  const IdKey := Name("_id")
  const RefIdKey := Name("$id")
  const RefKey := Name("$ref")
  const DbKey := Name("$db")

  /** The two keys whose values the edit and save transforms rewrite. */
  predicate IsIdKey(k: Key) {
    k == IdKey || k == RefIdKey
  }

  function Keys(es: seq<Entry>): (ks: seq<Key>)
    ensures |ks| == |es| && forall i :: 0 <= i < |es| ==> ks[i] == es[i].key
  {
    seq(|es|, i requires 0 <= i < |es| => es[i].key)
  }

  /** A real PHP array never holds one key twice. */
  predicate UniqueKeys(es: seq<Entry>) {
    forall i, j :: 0 <= i < j < |es| ==> es[i].key != es[j].key
  }

  /** Unique keys in the array and in every nested array. */
  predicate WellFormed(es: seq<Entry>)
    decreases Arr(es)
  {
    && UniqueKeys(es)
    && forall i :: 0 <= i < |es| ==> es[i].val.Arr? ==> WellFormed(es[i].val.entries)
  }

  /** Position of the first entry under `k`. */
  function IndexOf(es: seq<Entry>, k: Key): (r: Option<nat>)
    ensures r.Some? ==> r.value < |es| && es[r.value].key == k
    ensures r.Some? ==> forall j :: 0 <= j < r.value ==> es[j].key != k
    ensures r.None? ==> forall j :: 0 <= j < |es| ==> es[j].key != k
  {
    if es == [] then None
    else if es[0].key == k then Some(0)
    else match IndexOf(es[1..], k)
      case None => None
      case Some(j) => Some(j + 1)
  }

  predicate HasKey(es: seq<Entry>, k: Key) {
    IndexOf(es, k).Some?
  }

  /** `$a[$k]` read without a default. */
  function Lookup(es: seq<Entry>, k: Key): Option<Value> {
    match IndexOf(es, k)
    case Some(i) => Some(es[i].val)
    case None => None
  }

  /** `$a[$k]` as PHP evaluates it for a missing key: null. */
  function LookupOrNull(es: seq<Entry>, k: Key): Value {
    Lookup(es, k).GetOr(Null)
  }

  /** `isset($a[$k])`: the key is present and its value is not null. */
  predicate IsSet(es: seq<Entry>, k: Key) {
    Lookup(es, k).Some? && !Lookup(es, k).value.Null?
  }

  /** `$a[$k] = $v`: overwrite the entry in place, or append a new one. */
  function Put(es: seq<Entry>, k: Key, v: Value): (r: seq<Entry>)
    ensures !HasKey(es, k) ==> r == es + [Entry(k, v)]
    ensures forall i :: 0 <= i < |es| && es[i].key == k && UniqueKeys(es) ==> r == es[i := Entry(k, v)]
  {
    match IndexOf(es, k)
    case Some(i) => es[i := Entry(k, v)]
    case None => es + [Entry(k, v)]
  }

  /** `$a[$k] = $v` keeps every other key where it was, gives `k` the value
      `v`, and adds `k` at the end only when it was absent. */
  lemma PutProperties(es: seq<Entry>, k: Key, v: Value)
    requires UniqueKeys(es)
    ensures UniqueKeys(Put(es, k, v))
    ensures Lookup(Put(es, k, v), k) == Some(v)
    ensures forall k' :: k' != k ==> Lookup(Put(es, k, v), k') == Lookup(es, k')
    ensures Keys(Put(es, k, v)) == if HasKey(es, k) then Keys(es) else Keys(es) + [k]
  {
    var r := Put(es, k, v);
    if HasKey(es, k) {
      var i := IndexOf(es, k).value;
      assert r == es[i := Entry(k, v)] && r[i] == Entry(k, v);
    } else {
      assert r == es + [Entry(k, v)] && r[|es|] == Entry(k, v);
    }
    assert UniqueKeys(r);
    assert forall j :: 0 <= j < |r| && r[j].key != k ==> r[j] == es[j];
    forall k' | k' != k
      ensures Lookup(r, k') == Lookup(es, k')
    {
      LookupUnique(es, k');
      LookupUnique(r, k');
    }
    LookupUnique(r, k);
  }

  /** With unique keys, Lookup finds the one entry carrying the key. */
  lemma LookupUnique(es: seq<Entry>, k: Key)
    requires UniqueKeys(es)
    ensures forall i :: 0 <= i < |es| && es[i].key == k ==> Lookup(es, k) == Some(es[i].val)
    ensures (forall i :: 0 <= i < |es| ==> es[i].key != k) ==> Lookup(es, k) == None
  {
  }

  /** The key a string names in a PHP array: text of a decimal integer in
      canonical form (no leading zero, no plus sign, no "-0") becomes an
      integer key, any other text stays a string key. */
  function ArrayKey(s: string): (k: Key)
    ensures k.Index? ==> IntToString(k.n) == s
    ensures k.Name? ==> k.s == s
  {
    if IsCanonicalIndex(s) then
      NatToStringOfParseIndex(s);
      Index(DigitsValue(s))
    else if |s| > 1 && s[0] == '-' && IsCanonicalIndex(s[1..]) && s[1] != '0' then
      NegativeKeyText(s);
      Index(NegativeKeyValue(s))
    else Name(s)
  }

  function NegativeKeyValue(s: string): int
    requires |s| > 1 && IsCanonicalIndex(s[1..])
  {
    0 - DigitsValue(s[1..])
  }

  /** A minus sign before canonical digits other than "0" is the text of a
      negative integer. */
  lemma NegativeKeyText(s: string)
    requires |s| > 1 && s[0] == '-' && IsCanonicalIndex(s[1..]) && s[1] != '0'
    ensures IntToString(NegativeKeyValue(s)) == s
  {
    var t := s[1..];
    NatToStringOfParseIndex(t);
    LeadingDigitPositive(t);
    assert NegativeKeyValue(s) < 0;
    assert -NegativeKeyValue(s) == DigitsValue(t);
    assert s == "-" + t;
  }

  /** Every integer's decimal text names that integer's key. */
  lemma ArrayKeyOfIntString(i: int)
    ensures ArrayKey(IntToString(i)) == Index(i)
  {
    if i < 0 {
      var t := NatToString(-i);
      var s := "-" + t;
      ParseIndexOfNatToString(-i);
      assert IsCanonicalIndex(t) && DigitsValue(t) == -i;
      assert s[1..] == t;
      assert !IsCanonicalIndex(s) by { assert !IsDigit(s[0]); }
      assert s[1] == t[0] != '0';
      assert IntToString(i) == s;
    } else {
      ParseIndexOfNatToString(i);
    }
  }

  /** PHP's `(string)` cast (and the implicit cast of `.` concatenation). */
  function PhpString(v: Value): (s: string)
  {
    match v
    case Null => ""
    case Bool(b) => if b then "1" else ""
    case Int(i) => IntToString(i)
    case Str(s) => s
    case ObjectId(id) => HexOf(id)
    case Arr(_) => "Array"
  }

  /** The text of a value is what a key or identifier is read back from:
      a string is itself, an integer reads back as the same array key, an
      ObjectID's hex text parses back to the same bytes. */
  lemma PhpStringReadsBack(v: Value)
    ensures v.Str? ==> PhpString(v) == v.s
    ensures v.Int? ==> ArrayKey(PhpString(v)) == Index(v.i)
    ensures v.ObjectId? ==> ParseObjectId(PhpString(v)) == Some(v.id)
  {
    match v
    case Int(i) => ArrayKeyOfIntString(i);
    case ObjectId(id) => ParseHexOf(id);
    case _ =>
  }

  /** `new ObjectID($v)`. A null argument makes the driver generate a new
      identifier, supplied here as `newId`; an ObjectID argument is taken
      through its string form, so it denotes itself; other scalars are
      coerced to their string form, which must be 24 hex digits; an array
      is a TypeError. */
  function ObjectIdOf(v: Value, newId: OidBytes): (r: Result<OidBytes, Error>)
    ensures v.Null? ==> r == Ok(newId)
    ensures v.ObjectId? ==> r == Ok(v.id)
    ensures v.Arr? ==> r == Err(TypeError)
  {
    match v
    case Null => Ok(newId)
    case ObjectId(id) => Ok(id)
    case Arr(_) => Err(TypeError)
    case _ =>
      match ParseObjectId(PhpString(v))
      case Some(id) => Ok(id)
      case None => Err(InvalidObjectId(PhpString(v)))
  }

  /** Values `new ObjectID($v)` accepts, stated without parsing. */
  predicate ConvertibleToObjectId(v: Value) {
    !v.Arr? && (v.Null? || v.ObjectId? || IsObjectIdText(PhpString(v)))
  }

  lemma ObjectIdOfSucceeds(v: Value, newId: OidBytes)
    ensures ObjectIdOf(v, newId).Ok? <==> ConvertibleToObjectId(v)
  {
  }

  /** The string form of an identifier converts back to that identifier. */
  lemma ObjectIdOfHexOf(id: OidBytes, newId: OidBytes)
    ensures ObjectIdOf(Str(PhpString(ObjectId(id))), newId) == Ok(id)
  {
    ParseHexOf(id);
  }

  /** Every value stored under `_id` or `$id`, at any depth, satisfies `p`;
      arrays under other keys are searched, arrays under an id key are not
      (they are the id value itself). */
  predicate IdsAre(es: seq<Entry>, p: Value -> bool)
    decreases Arr(es)
  {
    forall i :: 0 <= i < |es| ==>
      if IsIdKey(es[i].key) then p(es[i].val)
      else es[i].val.Arr? ==> IdsAre(es[i].val.entries, p)
  }

  /** `IdsAre` over one more entry. */
  lemma IdsAreSnoc(es: seq<Entry>, n: nat, p: Value -> bool)
    requires 0 < n <= |es|
    ensures IdsAre(es[..n], p) <==>
              && IdsAre(es[..n - 1], p)
              && (if IsIdKey(es[n - 1].key) then p(es[n - 1].val)
                  else es[n - 1].val.Arr? ==> IdsAre(es[n - 1].val.entries, p))
  {
    assert forall j :: 0 <= j < n - 1 ==> es[..n][j] == es[..n - 1][j];
    assert es[..n][n - 1] == es[n - 1];
  }

  predicate IsObjectIdValue(v: Value) {
    v.ObjectId?
  }

  predicate IsStrValue(v: Value) {
    v.Str?
  }

  /** A looked-up document is truthy for PHP's `!$doc` test: found and not
      an empty array. */
  predicate Found(doc: Option<seq<Entry>>) {
    doc.Some? && |doc.value| > 0
  }

  /** A document is truthy exactly when it holds some key. */
  lemma FoundIffSomeKey(doc: Option<seq<Entry>>)
    ensures Found(doc) <==> doc.Some? && exists k :: HasKey(doc.value, k)
  {
    if Found(doc) {
      assert HasKey(doc.value, doc.value[0].key);
    }
  }

  /** `$doc['_id'] instanceof MongoDB\BSON\ObjectID`, where a missing
      document or key reads as null. */
  predicate HasObjectIdKey(doc: Option<seq<Entry>>): (b: bool)
    ensures b ==> Found(doc)
  {
    doc.Some? && LookupOrNull(doc.value, IdKey).ObjectId?
  }
}
