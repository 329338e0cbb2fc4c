/** prepareMongoDBDocumentForEdit, mongo.php:226-244: before a document is
    shown in the edit box, every value under `_id` or `$id`, at any depth,
    is replaced by its string form; nested arrays are prepared the same way
    and every other value is copied unchanged, in the original key order. */
module EditPreparation {
  import opened PhpValues

  /** The first `n` entries of `es`, prepared for editing. */
  function ForEditUpTo(es: seq<Entry>, n: nat): (r: seq<Entry>)
    requires n <= |es|
    ensures |r| == n && forall i :: 0 <= i < n ==> r[i].key == es[i].key
    decreases Arr(es), n
  {
    if n == 0 then []
    else
      var e := es[n - 1];
      var v :=
        if IsIdKey(e.key) then Str(PhpString(e.val))
        else if e.val.Arr? then Arr(ForEditUpTo(e.val.entries, |e.val.entries|))
        else e.val;
      ForEditUpTo(es, n - 1) + [Entry(e.key, v)]
  }

  function ForEdit(es: seq<Entry>): seq<Entry> {
    ForEditUpTo(es, |es|)
  }

  /** prepareMongoDBDocumentForEdit as the source writes it: a loop that
      fills `prepared` key by key, recursing into nested arrays. */
  method PrepareForEdit(invalue: seq<Entry>) returns (prepared: seq<Entry>)
    requires WellFormed(invalue)
    ensures prepared == ForEdit(invalue)
    decreases Arr(invalue)
  {
    prepared := [];
    var i := 0;
    while i < |invalue|
      invariant 0 <= i <= |invalue|
      invariant prepared == ForEditUpTo(invalue, i)
    {
      var key, value := invalue[i].key, invalue[i].val;
      if key == IdKey {
        value := Str(PhpString(value));
      }
      if key == RefIdKey {
        value := Str(PhpString(value));
      }
      assert !HasKey(prepared, key) by {
        assert forall j :: 0 <= j < i ==> prepared[j].key == invalue[j].key != key;
      }
      if value.Arr? {
        var sub := PrepareForEdit(value.entries);
        prepared := Put(prepared, key, Arr(sub));
      } else {
        prepared := Put(prepared, key, value);
      }
      i := i + 1;
    }
  }

  lemma {:induction false} ForEditUpToAt(es: seq<Entry>, n: nat, i: nat)
    requires i < n <= |es|
    ensures ForEditUpTo(es, n)[i] == ForEditUpTo(es, i + 1)[i]
    decreases n
  {
    if i + 1 < n {
      ForEditUpToAt(es, n - 1, i);
    }
  }

  /** Entry by entry: the key stays in place; a value under `_id` or `$id`
      becomes its string form; a nested array under any other key is itself
      prepared; every other value is copied as it was. */
  lemma ForEditAt(es: seq<Entry>, i: nat)
    requires i < |es|
    ensures |ForEdit(es)| == |es|
    ensures ForEdit(es)[i].key == es[i].key
    ensures IsIdKey(es[i].key) ==> ForEdit(es)[i].val == Str(PhpString(es[i].val))
    ensures !IsIdKey(es[i].key) && es[i].val.Arr? ==> ForEdit(es)[i].val == Arr(ForEdit(es[i].val.entries))
    ensures !IsIdKey(es[i].key) && !es[i].val.Arr? ==> ForEdit(es)[i].val == es[i].val
  {
    ForEditUpToAt(es, |es|, i);
  }

  /** After preparation every id value, at every depth, is a string. */
  lemma {:induction false} ForEditIdsAreStrings(es: seq<Entry>)
    ensures IdsAre(ForEdit(es), IsStrValue)
    decreases Arr(es)
  {
    var r := ForEdit(es);
    forall i | 0 <= i < |r|
      ensures if IsIdKey(r[i].key) then IsStrValue(r[i].val)
              else r[i].val.Arr? ==> IdsAre(r[i].val.entries, IsStrValue)
    {
      ForEditAt(es, i);
      if !IsIdKey(es[i].key) && es[i].val.Arr? {
        ForEditIdsAreStrings(es[i].val.entries);
      }
    }
  }

  /** Preparing an already prepared document changes nothing. */
  lemma {:induction false} ForEditIdempotent(es: seq<Entry>)
    ensures ForEdit(ForEdit(es)) == ForEdit(es)
    decreases Arr(es)
  {
    var r := ForEdit(es);
    forall i | 0 <= i < |r|
      ensures ForEdit(r)[i] == r[i]
    {
      ForEditAt(es, i);
      ForEditAt(r, i);
      if !IsIdKey(es[i].key) && es[i].val.Arr? {
        ForEditIdempotent(es[i].val.entries);
      }
    }
  }

  /** Preparation keeps a PHP array a PHP array: keys stay unique at every
      depth. */
  lemma {:induction false} ForEditWellFormed(es: seq<Entry>)
    requires WellFormed(es)
    ensures WellFormed(ForEdit(es))
    decreases Arr(es)
  {
    var r := ForEdit(es);
    forall i | 0 <= i < |r|
      ensures r[i].key == es[i].key
      ensures r[i].val.Arr? ==> WellFormed(r[i].val.entries)
    {
      ForEditAt(es, i);
      if !IsIdKey(es[i].key) && es[i].val.Arr? {
        ForEditWellFormed(es[i].val.entries);
      }
    }
  }
}
