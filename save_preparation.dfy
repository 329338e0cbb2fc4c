/** The tree-rewrite half of prepareValueForMongoDB, mongo.php:200-216:
    before a document is written back, every value under `_id` or `$id`, at
    any depth, becomes `new ObjectID($v)` unless the request carries
    `custom_id`; nested arrays are prepared the same way and everything else
    is copied. A failing ObjectID construction ends the walk with that
    exception. */
module SavePreparation {
  import opened Results
  import opened ObjectIds
  import opened PhpValues
  import opened EditPreparation

  /** The first `n` entries of `es`, prepared for saving; the first failing
      conversion, in document order, is the result. */
  function ForSaveUpTo(es: seq<Entry>, n: nat, customId: bool, newId: OidBytes): (r: Result<seq<Entry>, Error>)
    requires n <= |es|
    ensures r.Ok? ==> |r.value| == n && forall i :: 0 <= i < n ==> r.value[i].key == es[i].key
    decreases Arr(es), n
  {
    if n == 0 then Ok([])
    else
      var init :- ForSaveUpTo(es, n - 1, customId, newId);
      var e := es[n - 1];
      var v :-
        if IsIdKey(e.key) && !customId then
          (var id :- ObjectIdOf(e.val, newId); Ok(ObjectId(id)))
        else if e.val.Arr? then
          (var sub :- ForSaveUpTo(e.val.entries, |e.val.entries|, customId, newId); Ok(Arr(sub)))
        else Ok(e.val);
      Ok(init + [Entry(e.key, v)])
  }

  function ForSave(es: seq<Entry>, customId: bool, newId: OidBytes): Result<seq<Entry>, Error> {
    ForSaveUpTo(es, |es|, customId, newId)
  }

  /** The rewrite loop as the source writes it: each entry in turn is
      prepared and assigned into the result. */
  method PrepareForSave(value: seq<Entry>, customId: bool, newId: OidBytes) returns (result: Result<seq<Entry>, Error>)
    requires WellFormed(value)
    ensures result == ForSave(value, customId, newId)
    decreases Arr(value), 1
  {
    var prepared := [];
    var i := 0;
    while i < |value|
      invariant 0 <= i <= |value|
      invariant ForSaveUpTo(value, i, customId, newId) == Ok(prepared)
    {
      var next := PrepareEntry(value, i, prepared, customId, newId);
      if next.Err? {
        FailureSticks(value, i + 1, |value|, customId, newId);
        return next;
      }
      prepared := next.value;
      i := i + 1;
    }
    return Ok(prepared);
  }

  /** The loop body for entry `i`: convert an id, then either recurse into
      an array or copy the value, and assign it under its key. */
  method PrepareEntry(value: seq<Entry>, i: nat, prepared: seq<Entry>, customId: bool, newId: OidBytes)
    returns (next: Result<seq<Entry>, Error>)
    requires WellFormed(value) && i < |value|
    requires ForSaveUpTo(value, i, customId, newId) == Ok(prepared)
    ensures next == ForSaveUpTo(value, i + 1, customId, newId)
    decreases Arr(value), 0
  {
    ForSaveUpToStep(value, i, customId, newId);
    var k, v := value[i].key, value[i].val;
    if k == IdKey && !customId {
      var id := ObjectIdOf(v, newId);
      if id.Err? {
        return Err(id.error);
      }
      v := ObjectId(id.value);
    }
    if k == RefIdKey && !customId {
      var id := ObjectIdOf(v, newId);
      if id.Err? {
        return Err(id.error);
      }
      v := ObjectId(id.value);
    }
    assert !HasKey(prepared, k) by {
      assert forall j :: 0 <= j < i ==> prepared[j].key == value[j].key != k;
    }
    if v.Arr? {
      var sub := PrepareForSave(v.entries, customId, newId);
      if sub.Err? {
        return Err(sub.error);
      }
      next := Ok(Put(prepared, k, Arr(sub.value)));
    } else {
      next := Ok(Put(prepared, k, v));
    }
  }

  /** One more entry of a successful walk: its converted value is appended,
      or its failure is the walk's. */
  lemma ForSaveUpToStep(es: seq<Entry>, n: nat, customId: bool, newId: OidBytes)
    requires n < |es| && ForSaveUpTo(es, n, customId, newId).Ok?
    ensures var p := ForSaveUpTo(es, n, customId, newId).value;
            var e := es[n];
            ForSaveUpTo(es, n + 1, customId, newId) ==
              (if IsIdKey(e.key) && !customId then
                 (match ObjectIdOf(e.val, newId)
                  case Ok(id) => Ok(p + [Entry(e.key, ObjectId(id))])
                  case Err(x) => Err(x))
               else if e.val.Arr? then
                 (match ForSave(e.val.entries, customId, newId)
                  case Ok(sub) => Ok(p + [Entry(e.key, Arr(sub))])
                  case Err(x) => Err(x))
               else Ok(p + [e]))
  {
  }

  /** Once a conversion fails, the walk's result is that failure. */
  lemma {:induction false} FailureSticks(es: seq<Entry>, m: nat, n: nat, customId: bool, newId: OidBytes)
    requires m <= n <= |es|
    requires ForSaveUpTo(es, m, customId, newId).Err?
    ensures ForSaveUpTo(es, n, customId, newId) == ForSaveUpTo(es, m, customId, newId)
    decreases n
  {
    if m < n {
      FailureSticks(es, m, n - 1, customId, newId);
    }
  }

  lemma {:induction false} ForSaveUpToAt(es: seq<Entry>, n: nat, i: nat, customId: bool, newId: OidBytes)
    requires i < n <= |es|
    requires ForSaveUpTo(es, n, customId, newId).Ok?
    ensures ForSaveUpTo(es, i + 1, customId, newId).Ok?
    ensures ForSaveUpTo(es, n, customId, newId).value[i] == ForSaveUpTo(es, i + 1, customId, newId).value[i]
    decreases n
  {
    if i + 1 < n {
      ForSaveUpToAt(es, n - 1, i, customId, newId);
    }
  }

  /** Entry by entry, when saving succeeds: the key stays in place; without
      `custom_id` an id value becomes the ObjectID it converts to; a nested
      array under any other key is itself prepared; every other value is
      copied as it was. */
  lemma ForSaveAt(es: seq<Entry>, i: nat, customId: bool, newId: OidBytes)
    requires i < |es|
    requires ForSave(es, customId, newId).Ok?
    ensures |ForSave(es, customId, newId).value| == |es|
    ensures ForSave(es, customId, newId).value[i].key == es[i].key
    ensures IsIdKey(es[i].key) && !customId ==>
      ObjectIdOf(es[i].val, newId).Ok? &&
      ForSave(es, customId, newId).value[i].val == ObjectId(ObjectIdOf(es[i].val, newId).value)
    ensures (!IsIdKey(es[i].key) || customId) && es[i].val.Arr? ==>
      ForSave(es[i].val.entries, customId, newId).Ok? &&
      ForSave(es, customId, newId).value[i].val == Arr(ForSave(es[i].val.entries, customId, newId).value)
    ensures (!IsIdKey(es[i].key) || customId) && !es[i].val.Arr? ==>
      ForSave(es, customId, newId).value[i].val == es[i].val
  {
    ForSaveUpToAt(es, |es|, i, customId, newId);
  }

  /** With `custom_id` set the document is written back exactly as given. */
  lemma {:induction false} ForSaveCustomIdIsIdentity(es: seq<Entry>, newId: OidBytes)
    ensures ForSave(es, true, newId) == Ok(es)
    decreases Arr(es)
  {
    CustomIdUpTo(es, |es|, newId);
    assert es[..|es|] == es;
  }

  lemma {:induction false} CustomIdUpTo(es: seq<Entry>, n: nat, newId: OidBytes)
    requires n <= |es|
    ensures ForSaveUpTo(es, n, true, newId) == Ok(es[..n])
    decreases Arr(es), n
  {
    if n > 0 {
      CustomIdUpTo(es, n - 1, newId);
      var e := es[n - 1];
      if e.val.Arr? {
        CustomIdUpTo(e.val.entries, |e.val.entries|, newId);
        assert e.val.entries[..|e.val.entries|] == e.val.entries;
      }
      assert es[..n] == es[..n - 1] + [e];
    }
  }

  /** The ids of a document that every conversion accepts: the reference
      condition under which saving without `custom_id` succeeds. */
  predicate IdsConvertible(es: seq<Entry>) {
    IdsAre(es, ConvertibleToObjectId)
  }

  /** Saving without `custom_id` succeeds exactly when every id value, at
      every depth, is something `new ObjectID()` accepts. */
  lemma {:induction false} ForSaveSucceedsIff(es: seq<Entry>, newId: OidBytes)
    ensures ForSave(es, false, newId).Ok? <==> IdsConvertible(es)
    decreases Arr(es)
  {
    SucceedsUpTo(es, |es|, newId);
  }

  lemma {:induction false} SucceedsUpTo(es: seq<Entry>, n: nat, newId: OidBytes)
    requires n <= |es|
    ensures ForSaveUpTo(es, n, false, newId).Ok? <==> IdsAre(es[..n], ConvertibleToObjectId)
    decreases Arr(es), n
  {
    if n > 0 {
      SucceedsUpTo(es, n - 1, newId);
      IdsAreSnoc(es, n, ConvertibleToObjectId);
      if ForSaveUpTo(es, n - 1, false, newId).Err? {
        FailureSticks(es, n - 1, n, false, newId);
      } else {
        var e := es[n - 1];
        if !IsIdKey(e.key) && e.val.Arr? {
          SucceedsUpTo(e.val.entries, |e.val.entries|, newId);
          assert e.val.entries[..|e.val.entries|] == e.val.entries;
        }
        SucceedsAtEntry(es, n, newId);
      }
    }
  }

  /** One more entry after a successful prefix: it succeeds exactly when
      its id converts, or, for a nested array, when the array's ids do. */
  lemma SucceedsAtEntry(es: seq<Entry>, n: nat, newId: OidBytes)
    requires 0 < n <= |es| && ForSaveUpTo(es, n - 1, false, newId).Ok?
    requires !IsIdKey(es[n - 1].key) && es[n - 1].val.Arr? ==>
               (ForSave(es[n - 1].val.entries, false, newId).Ok? <==> IdsAre(es[n - 1].val.entries, ConvertibleToObjectId))
    ensures ForSaveUpTo(es, n, false, newId).Ok? <==>
              if IsIdKey(es[n - 1].key) then ConvertibleToObjectId(es[n - 1].val)
              else es[n - 1].val.Arr? ==> IdsAre(es[n - 1].val.entries, ConvertibleToObjectId)
  {
    ForSaveUpToStep(es, n - 1, false, newId);
    if IsIdKey(es[n - 1].key) {
      ObjectIdOfSucceeds(es[n - 1].val, newId);
    }
  }

  /** Without `custom_id`, every id value of a saved document is an
      ObjectID. */
  lemma {:induction false} ForSaveIdsAreObjectIds(es: seq<Entry>, newId: OidBytes)
    requires ForSave(es, false, newId).Ok?
    ensures IdsAre(ForSave(es, false, newId).value, IsObjectIdValue)
    decreases Arr(es)
  {
    var r := ForSave(es, false, newId).value;
    forall i | 0 <= i < |r|
      ensures if IsIdKey(r[i].key) then IsObjectIdValue(r[i].val)
              else r[i].val.Arr? ==> IdsAre(r[i].val.entries, IsObjectIdValue)
    {
      ForSaveAt(es, i, false, newId);
      if !IsIdKey(es[i].key) && es[i].val.Arr? {
        ForSaveIdsAreObjectIds(es[i].val.entries, newId);
      }
    }
  }

  /** Edit round trip: a document whose ids are all ObjectIDs, prepared for
      editing and then prepared for saving without `custom_id`, is the
      document it started as. */
  lemma {:induction false} SaveAfterEditRoundTrip(es: seq<Entry>, newId: OidBytes)
    requires IdsAre(es, IsObjectIdValue)
    ensures ForSave(ForEdit(es), false, newId) == Ok(es)
    decreases Arr(es)
  {
    RoundTripUpTo(es, |es|, newId);
    assert |ForEdit(es)| == |es| && es[..|es|] == es;
  }

  lemma {:induction false} RoundTripUpTo(es: seq<Entry>, n: nat, newId: OidBytes)
    requires n <= |es|
    requires IdsAre(es, IsObjectIdValue)
    ensures ForSaveUpTo(ForEdit(es), n, false, newId) == Ok(es[..n])
    decreases Arr(es), n
  {
    if n > 0 {
      RoundTripUpTo(es, n - 1, newId);
      var e := es[n - 1];
      if IsIdKey(e.key) {
        RoundTripIdEntry(es, n, newId);
      } else if e.val.Arr? {
        assert IdsAre(e.val.entries, IsObjectIdValue);
        SaveAfterEditRoundTrip(e.val.entries, newId);
        RoundTripOtherEntry(es, n, newId);
      } else {
        RoundTripOtherEntry(es, n, newId);
      }
    }
  }

  /** An id entry: its edit text converts back to the same ObjectID. */
  lemma RoundTripIdEntry(es: seq<Entry>, n: nat, newId: OidBytes)
    requires 0 < n <= |es| && IsIdKey(es[n - 1].key) && es[n - 1].val.ObjectId?
    requires ForSaveUpTo(ForEdit(es), n - 1, false, newId) == Ok(es[..n - 1])
    ensures ForSaveUpTo(ForEdit(es), n, false, newId) == Ok(es[..n])
  {
    var d, e := ForEdit(es), es[n - 1];
    ForEditAt(es, n - 1);
    ObjectIdOfHexOf(e.val.id, newId);
    SaveIdStep(d, n - 1, newId, es[..n - 1], e.val.id);
    assert es[..n] == es[..n - 1] + [e];
  }

  /** An id entry after a successful prefix is replaced by its ObjectID. */
  lemma SaveIdStep(d: seq<Entry>, m: nat, newId: OidBytes, p: seq<Entry>, id: OidBytes)
    requires m < |d| && IsIdKey(d[m].key)
    requires ForSaveUpTo(d, m, false, newId) == Ok(p) && ObjectIdOf(d[m].val, newId) == Ok(id)
    ensures ForSaveUpTo(d, m + 1, false, newId) == Ok(p + [Entry(d[m].key, ObjectId(id))])
  {
    ForSaveUpToStep(d, m, false, newId);
  }

  /** Any other entry after a successful prefix keeps its value, or, for
      a nested array, takes the array's prepared form. */
  lemma SaveOtherStep(d: seq<Entry>, m: nat, newId: OidBytes, p: seq<Entry>, v: Value)
    requires m < |d| && !IsIdKey(d[m].key) && ForSaveUpTo(d, m, false, newId) == Ok(p)
    requires d[m].val.Arr? ==> v.Arr? && ForSave(d[m].val.entries, false, newId) == Ok(v.entries)
    requires !d[m].val.Arr? ==> v == d[m].val
    ensures ForSaveUpTo(d, m + 1, false, newId) == Ok(p + [Entry(d[m].key, v)])
  {
    ForSaveUpToStep(d, m, false, newId);
  }

  /** Any other entry: a scalar is copied, an array comes back from its own
      round trip. */
  lemma RoundTripOtherEntry(es: seq<Entry>, n: nat, newId: OidBytes)
    requires 0 < n <= |es| && !IsIdKey(es[n - 1].key)
    requires es[n - 1].val.Arr? ==> ForSave(ForEdit(es[n - 1].val.entries), false, newId) == Ok(es[n - 1].val.entries)
    requires ForSaveUpTo(ForEdit(es), n - 1, false, newId) == Ok(es[..n - 1])
    ensures ForSaveUpTo(ForEdit(es), n, false, newId) == Ok(es[..n])
  {
    var d, e := ForEdit(es), es[n - 1];
    ForEditAt(es, n - 1);
    SaveOtherStep(d, n - 1, newId, es[..n - 1], e.val);
    assert es[..n] == es[..n - 1] + [e];
  }

  /** A saved document survives another edit-and-save cycle unchanged. */
  lemma SaveIsStableUnderEditing(es: seq<Entry>, newId: OidBytes, newId': OidBytes)
    requires ForSave(es, false, newId).Ok?
    ensures ForSave(ForEdit(ForSave(es, false, newId).value), false, newId') == ForSave(es, false, newId)
  {
    ForSaveIdsAreObjectIds(es, newId);
    SaveAfterEditRoundTrip(ForSave(es, false, newId).value, newId');
  }
}
