/** linkDocumentReferences, mongo.php:139-172, and the document lookup it
    uses, findMongoDbDocument, mongo.php:257-279. The walk turns every
    database reference (an array carrying `$ref`) into navigable links
    for the read-only preview. */
module References {
  import opened Results
  import opened ObjectIds
  import opened PhpValues

  /** The request data the links are built from: `$_SERVER['PHP_SELF']`
      and `$_REQUEST['db']`. */
  datatype Request = Request(self: string, db: string)

  /** The document store as the lookup sees it: the first document of a
      collection whose `_id` is the given ObjectID, if any. */
  type Store = (string, string, OidBytes) -> Option<seq<Entry>>

  /** findMongoDbDocument: the ObjectID is built before the query, outside
      the try block, so an invalid id escapes as an exception; the
      `forceCustomId` argument is never read, so it is not a parameter. */
  function FindDocument(store: Store, id: Value, db: string, collection: string, newId: OidBytes): (r: Result<Option<seq<Entry>>, Error>)
    ensures r.Ok? <==> ConvertibleToObjectId(id)
    ensures r.Ok? ==> r.value == store(db, collection, ObjectIdOf(id, newId).value)
  {
    ObjectIdOfSucceeds(id, newId);
    var oid :- ObjectIdOf(id, newId);
    Ok(store(db, collection, oid))
  }

  function Anchor(href: string, text: string): string {
    "<a href=\"" + href + "\">" + text + "</a>"
  }

  function DatabaseHref(self: string, db: string): string {
    self + "?db=" + db
  }

  function CollectionHref(self: string, db: string, collection: string): string {
    DatabaseHref(self, db) + "&collection=" + collection
  }

  /** Link to one document; `&custom_id=1` tells the view to look the id up
      as a plain value rather than an ObjectID. */
  function DocumentHref(self: string, db: string, collection: string, id: string, customId: bool): string {
    CollectionHref(self, db, collection) + "&id=" + id + (if customId then "&custom_id=1" else "")
  }

  /** The database the links of reference `ref` point to: its `$db` when
      set, otherwise the request's. */
  function TargetDb(ref: seq<Entry>, req: Request): (db: string)
    ensures !IsSet(ref, DbKey) ==> db == req.db
    ensures IsSet(ref, DbKey) && LookupOrNull(ref, DbKey).Str? ==> db == LookupOrNull(ref, DbKey).s
  {
    if IsSet(ref, DbKey) then PhpString(LookupOrNull(ref, DbKey)) else req.db
  }

  /** mongo.php:144-165: rewrite `$ref`, `$id` and, only when set, `$db` of
      one reference array into links. The lookup is repeated when the first
      finds nothing, with the same arguments, as the source does. */
  function LinkReference(ref: seq<Entry>, req: Request, store: Store, newId: OidBytes): (r: Result<seq<Entry>, Error>)
    ensures r.Ok? <==> ConvertibleToObjectId(LookupOrNull(ref, RefIdKey))
  {
    var collection := PhpString(LookupOrNull(ref, RefKey));
    var id := LookupOrNull(ref, RefIdKey);
    var first :- FindDocument(store, id, req.db, collection, newId);
    var target := if Found(first) then first else FindDocument(store, id, req.db, collection, newId).value;
    Ok(LinkedEntries(ref, req, target))
  }

  /** The assignments of mongo.php:155-165, once the referenced document
      `target` has been looked up. */
  function LinkedEntries(ref: seq<Entry>, req: Request, target: Option<seq<Entry>>): seq<Entry> {
    var collection := PhpString(LookupOrNull(ref, RefKey));
    var idText := PhpString(LookupOrNull(ref, RefIdKey));
    var refDb := TargetDb(ref, req);
    var withRef := Put(ref, RefKey, Str(Anchor(CollectionHref(req.self, refDb, collection), collection)));
    var withId := Put(withRef, RefIdKey,
      Str(Anchor(DocumentHref(req.self, refDb, collection, idText, !HasObjectIdKey(target)), idText)));
    if IsSet(ref, DbKey) then Put(withId, DbKey, Str(Anchor(DatabaseHref(req.self, refDb), refDb)))
    else withId
  }

  /** What the walk makes of one value: a scalar stays as it is, a
      reference array is linked and not descended into, any other array is
      walked. */
  function LinkValue(v: Value, req: Request, store: Store, newId: OidBytes): Result<Value, Error>
    decreases v, if v.Arr? then |v.entries| + 1 else 0
  {
    match v
    case Arr(es) =>
      if IsSet(es, RefKey) then
        var linked :- LinkReference(es, req, store, newId);
        Ok(Arr(linked))
      else
        var sub :- LinkUpTo(es, |es|, req, store, newId);
        Ok(Arr(sub))
    case _ => Ok(v)
  }

  /** The first `n` entries of `es` with their references linked. */
  function LinkUpTo(es: seq<Entry>, n: nat, req: Request, store: Store, newId: OidBytes): (r: Result<seq<Entry>, Error>)
    requires n <= |es|
    ensures r.Ok? ==> |r.value| == n && forall i :: 0 <= i < n ==> r.value[i].key == es[i].key
    decreases Arr(es), n
  {
    if n == 0 then Ok([])
    else
      var init :- LinkUpTo(es, n - 1, req, store, newId);
      var v :- LinkValue(es[n - 1].val, req, store, newId);
      Ok(init + [Entry(es[n - 1].key, v)])
  }

  function Link(es: seq<Entry>, req: Request, store: Store, newId: OidBytes): Result<seq<Entry>, Error> {
    LinkUpTo(es, |es|, req, store, newId)
  }

  /** linkDocumentReferences as the source writes it: a loop over a copy of
      the document that overwrites `$document[$key]` in place. */
  method LinkDocumentReferences(document: seq<Entry>, req: Request, store: Store, newId: OidBytes)
    returns (result: Result<seq<Entry>, Error>)
    requires WellFormed(document)
    ensures result == Link(document, req, store, newId)
    decreases Arr(document)
  {
    var linked := document;
    ghost var done: seq<Entry> := [];
    var i := 0;
    while i < |document|
      invariant 0 <= i <= |document|
      invariant LinkUpTo(document, i, req, store, newId) == Ok(done)
      invariant linked == done + document[i..]
    {
      var key, value := document[i].key, document[i].val;
      var step: Result<Value, Error> := Ok(value);
      if value.Arr? {
        if IsSet(value.entries, RefKey) {
          var r := LinkReference(value.entries, req, store, newId);
          step := if r.Err? then Err(r.error) else Ok(Arr(r.value));
        } else {
          var r := LinkDocumentReferences(value.entries, req, store, newId);
          step := if r.Err? then Err(r.error) else Ok(Arr(r.value));
        }
      }
      LinkValueCases(value, req, store, newId);
      LinkUpToStep(document, i, req, store, newId);
      if step.Err? {
        LinkFailureSticks(document, i + 1, |document|, req, store, newId);
        return Err(step.error);
      }
      if value.Arr? {
        OverwriteInPlace(document, i, done, step.value);
        linked := Put(linked, key, step.value);
      } else {
        SplitAt(document, i, done);
      }
      done := done + [Entry(key, step.value)];
      i := i + 1;
    }
    assert linked == done;
    return Ok(linked);
  }

  lemma LinkValueCases(v: Value, req: Request, store: Store, newId: OidBytes)
    ensures !v.Arr? ==> LinkValue(v, req, store, newId) == Ok(v)
    ensures v.Arr? && IsSet(v.entries, RefKey) ==>
      LinkValue(v, req, store, newId) == (
        match LinkReference(v.entries, req, store, newId)
        case Ok(linked) => Ok(Arr(linked))
        case Err(e) => Err(e))
    ensures v.Arr? && !IsSet(v.entries, RefKey) ==>
      LinkValue(v, req, store, newId) == (
        match Link(v.entries, req, store, newId)
        case Ok(sub) => Ok(Arr(sub))
        case Err(e) => Err(e))
  {
  }

  /** One more entry of the walk: the entry's linked value is appended, or
      its failure becomes the walk's. */
  lemma LinkUpToStep(es: seq<Entry>, n: nat, req: Request, store: Store, newId: OidBytes)
    requires n < |es|
    requires LinkUpTo(es, n, req, store, newId).Ok?
    ensures LinkUpTo(es, n + 1, req, store, newId) ==
      match LinkValue(es[n].val, req, store, newId)
      case Ok(v) => Ok(LinkUpTo(es, n, req, store, newId).value + [Entry(es[n].key, v)])
      case Err(e) => Err(e)
  {
  }

  lemma SplitAt(document: seq<Entry>, i: nat, done: seq<Entry>)
    requires i < |document|
    ensures done + document[i..] == done + [document[i]] + document[i + 1..]
  {
    assert document[i..] == [document[i]] + document[i + 1..];
  }

  /** `$document[$key] = $v` on a document whose first `i` entries are
      already replaced by `done`: entry `i` changes, nothing moves. */
  lemma OverwriteInPlace(document: seq<Entry>, i: nat, done: seq<Entry>, v: Value)
    requires i < |document| && UniqueKeys(document)
    requires |done| == i && forall j :: 0 <= j < i ==> done[j].key == document[j].key
    ensures Put(done + document[i..], document[i].key, v) == done + [Entry(document[i].key, v)] + document[i + 1..]
  {
    var es := done + document[i..];
    assert forall j :: 0 <= j < |es| ==> es[j].key == document[j].key;
    assert UniqueKeys(es);
    assert es[i].key == document[i].key;
    assert es[i := Entry(document[i].key, v)] == done + [Entry(document[i].key, v)] + document[i + 1..];
  }

  lemma {:induction false} LinkFailureSticks(es: seq<Entry>, m: nat, n: nat, req: Request, store: Store, newId: OidBytes)
    requires m <= n <= |es|
    requires LinkUpTo(es, m, req, store, newId).Err?
    ensures LinkUpTo(es, n, req, store, newId) == LinkUpTo(es, m, req, store, newId)
    decreases n
  {
    if m < n {
      LinkFailureSticks(es, m, n - 1, req, store, newId);
    }
  }

  lemma {:induction false} LinkUpToAt(es: seq<Entry>, n: nat, i: nat, req: Request, store: Store, newId: OidBytes)
    requires i < n <= |es|
    requires LinkUpTo(es, n, req, store, newId).Ok?
    ensures LinkUpTo(es, i + 1, req, store, newId).Ok?
    ensures LinkUpTo(es, n, req, store, newId).value[i] == LinkUpTo(es, i + 1, req, store, newId).value[i]
    decreases n
  {
    if i + 1 < n {
      LinkUpToAt(es, n - 1, i, req, store, newId);
    }
  }

  /** Entry by entry, when linking succeeds: keys keep their places, scalar
      values are never changed, a reference array is linked (and nothing
      under it visited), any other array is walked. */
  lemma LinkAt(es: seq<Entry>, i: nat, req: Request, store: Store, newId: OidBytes)
    requires i < |es|
    requires Link(es, req, store, newId).Ok?
    ensures |Link(es, req, store, newId).value| == |es|
    ensures Link(es, req, store, newId).value[i].key == es[i].key
    ensures !es[i].val.Arr? ==> Link(es, req, store, newId).value[i].val == es[i].val
    ensures es[i].val.Arr? && IsSet(es[i].val.entries, RefKey) ==>
      LinkReference(es[i].val.entries, req, store, newId).Ok? &&
      Link(es, req, store, newId).value[i].val == Arr(LinkReference(es[i].val.entries, req, store, newId).value)
    ensures es[i].val.Arr? && !IsSet(es[i].val.entries, RefKey) ==>
      Link(es[i].val.entries, req, store, newId).Ok? &&
      Link(es, req, store, newId).value[i].val == Arr(Link(es[i].val.entries, req, store, newId).value)
  {
    LinkUpToAt(es, |es|, i, req, store, newId);
    LinkValueCases(es[i].val, req, store, newId);
  }

  /** The document a successful reference rewrite links against: the
      store's document for the reference's `$id` in the request's database. */
  lemma LinkReferenceIsLinkedEntries(ref: seq<Entry>, req: Request, store: Store, newId: OidBytes)
    requires LinkReference(ref, req, store, newId).Ok?
    ensures ConvertibleToObjectId(LookupOrNull(ref, RefIdKey))
    ensures LinkReference(ref, req, store, newId).value ==
      LinkedEntries(ref, req, store(req.db, PhpString(LookupOrNull(ref, RefKey)), ObjectIdOf(LookupOrNull(ref, RefIdKey), newId).value))
  {
  }

  /** A rewritten reference differs from the original only in `$ref`,
      `$id` and `$db`; every other entry keeps its key, place and value. A
      missing `$id` is added at the end, since the source assigns it. */
  lemma LinkReferenceKeepsOtherEntries(ref: seq<Entry>, req: Request, store: Store, newId: OidBytes)
    requires UniqueKeys(ref) && IsSet(ref, RefKey)
    requires ConvertibleToObjectId(LookupOrNull(ref, RefIdKey))
    ensures UniqueKeys(LinkReference(ref, req, store, newId).value)
    ensures Keys(LinkReference(ref, req, store, newId).value) ==
      if HasKey(ref, RefIdKey) then Keys(ref) else Keys(ref) + [RefIdKey]
    ensures forall k :: k != RefKey && k != RefIdKey && !(k == DbKey && IsSet(ref, DbKey)) ==>
      Lookup(LinkReference(ref, req, store, newId).value, k) == Lookup(ref, k)
  {
    LinkReferenceIsLinkedEntries(ref, req, store, newId);
    var target := store(req.db, PhpString(LookupOrNull(ref, RefKey)), ObjectIdOf(LookupOrNull(ref, RefIdKey), newId).value);
    LinkedEntriesKeepOthers(ref, req, target);
  }

  lemma LinkedEntriesKeepOthers(ref: seq<Entry>, req: Request, target: Option<seq<Entry>>)
    requires UniqueKeys(ref) && IsSet(ref, RefKey)
    ensures UniqueKeys(LinkedEntries(ref, req, target))
    ensures Keys(LinkedEntries(ref, req, target)) ==
      if HasKey(ref, RefIdKey) then Keys(ref) else Keys(ref) + [RefIdKey]
    ensures forall k :: k != RefKey && k != RefIdKey && !(k == DbKey && IsSet(ref, DbKey)) ==>
      Lookup(LinkedEntries(ref, req, target), k) == Lookup(ref, k)
  {
    var collection := PhpString(LookupOrNull(ref, RefKey));
    var idText := PhpString(LookupOrNull(ref, RefIdKey));
    var refDb := TargetDb(ref, req);
    var refLink := Str(Anchor(CollectionHref(req.self, refDb, collection), collection));
    var idLink := Str(Anchor(DocumentHref(req.self, refDb, collection, idText, !HasObjectIdKey(target)), idText));
    var dbLink := Str(Anchor(DatabaseHref(req.self, refDb), refDb));
    var withRef := Put(ref, RefKey, refLink);
    PutProperties(ref, RefKey, refLink);
    assert HasKey(ref, RefKey);
    var withId := Put(withRef, RefIdKey, idLink);
    PutProperties(withRef, RefIdKey, idLink);
    assert HasKey(withRef, RefIdKey) == HasKey(ref, RefIdKey) by {
      LookupUnique(ref, RefIdKey);
      LookupUnique(withRef, RefIdKey);
    }
    if IsSet(ref, DbKey) {
      PutProperties(withId, DbKey, dbLink);
      assert HasKey(withId, DbKey) by {
        LookupUnique(withId, DbKey);
      }
    }
  }

  /** The links of a rewritten reference: `$ref` and `$db` point into the
      reference's `$db` when set and the request's database otherwise; the
      `$id` link carries `&custom_id=1` exactly when the document the store
      holds under that id, in the request's database, has no ObjectID
      `_id`, including when the store holds no such document. */
  lemma LinkReferenceTargets(ref: seq<Entry>, req: Request, store: Store, newId: OidBytes)
    requires UniqueKeys(ref) && IsSet(ref, RefKey)
    requires ConvertibleToObjectId(LookupOrNull(ref, RefIdKey))
    ensures var collection := PhpString(LookupOrNull(ref, RefKey));
            var id := LookupOrNull(ref, RefIdKey);
            var refDb := if IsSet(ref, DbKey) then PhpString(LookupOrNull(ref, DbKey)) else req.db;
            var found := store(req.db, collection, ObjectIdOf(id, newId).value);
            var linked := LinkReference(ref, req, store, newId).value;
            && Lookup(linked, RefKey) == Some(Str(Anchor(CollectionHref(req.self, refDb, collection), collection)))
            && Lookup(linked, RefIdKey) ==
                 Some(Str(Anchor(DocumentHref(req.self, refDb, collection, PhpString(id), !HasObjectIdKey(found)), PhpString(id))))
            && Lookup(linked, DbKey) ==
                 if IsSet(ref, DbKey) then Some(Str(Anchor(DatabaseHref(req.self, refDb), refDb))) else Lookup(ref, DbKey)
  {
    LinkReferenceIsLinkedEntries(ref, req, store, newId);
    var target := store(req.db, PhpString(LookupOrNull(ref, RefKey)), ObjectIdOf(LookupOrNull(ref, RefIdKey), newId).value);
    LinkedEntriesTargets(ref, req, target);
  }

  lemma LinkedEntriesTargets(ref: seq<Entry>, req: Request, target: Option<seq<Entry>>)
    requires UniqueKeys(ref) && IsSet(ref, RefKey)
    ensures var collection := PhpString(LookupOrNull(ref, RefKey));
            var id := LookupOrNull(ref, RefIdKey);
            var refDb := if IsSet(ref, DbKey) then PhpString(LookupOrNull(ref, DbKey)) else req.db;
            var linked := LinkedEntries(ref, req, target);
            && Lookup(linked, RefKey) == Some(Str(Anchor(CollectionHref(req.self, refDb, collection), collection)))
            && Lookup(linked, RefIdKey) ==
                 Some(Str(Anchor(DocumentHref(req.self, refDb, collection, PhpString(id), !HasObjectIdKey(target)), PhpString(id))))
            && Lookup(linked, DbKey) ==
                 if IsSet(ref, DbKey) then Some(Str(Anchor(DatabaseHref(req.self, refDb), refDb))) else Lookup(ref, DbKey)
  {
    var collection := PhpString(LookupOrNull(ref, RefKey));
    var idText := PhpString(LookupOrNull(ref, RefIdKey));
    var refDb := TargetDb(ref, req);
    var refLink := Str(Anchor(CollectionHref(req.self, refDb, collection), collection));
    var idLink := Str(Anchor(DocumentHref(req.self, refDb, collection, idText, !HasObjectIdKey(target)), idText));
    var dbLink := Str(Anchor(DatabaseHref(req.self, refDb), refDb));
    var withRef := Put(ref, RefKey, refLink);
    PutProperties(ref, RefKey, refLink);
    var withId := Put(withRef, RefIdKey, idLink);
    PutProperties(withRef, RefIdKey, idLink);
    if IsSet(ref, DbKey) {
      PutProperties(withId, DbKey, dbLink);
    }
  }

  /** The reference condition under which the walk succeeds: every `$id`
      of a reference it reaches is something `new ObjectID()` accepts. */
  predicate RefIdsConvertible(es: seq<Entry>)
    decreases Arr(es)
  {
    forall i :: 0 <= i < |es| ==> es[i].val.Arr? ==>
      if IsSet(es[i].val.entries, RefKey) then ConvertibleToObjectId(LookupOrNull(es[i].val.entries, RefIdKey))
      else RefIdsConvertible(es[i].val.entries)
  }

  /** Linking fails exactly when some reference it reaches has an `$id`
      that `new ObjectID()` rejects. */
  lemma {:induction false} LinkSucceedsIff(es: seq<Entry>, req: Request, store: Store, newId: OidBytes)
    ensures Link(es, req, store, newId).Ok? <==> RefIdsConvertible(es)
    decreases Arr(es)
  {
    LinkSucceedsUpTo(es, |es|, req, store, newId);
    assert es[..|es|] == es;
  }

  lemma {:induction false} LinkSucceedsUpTo(es: seq<Entry>, n: nat, req: Request, store: Store, newId: OidBytes)
    requires n <= |es|
    ensures LinkUpTo(es, n, req, store, newId).Ok? <==> RefIdsConvertible(es[..n])
    decreases Arr(es), n
  {
    if n > 0 {
      LinkSucceedsUpTo(es, n - 1, req, store, newId);
      RefIdsSnoc(es, n);
      if LinkUpTo(es, n - 1, req, store, newId).Err? {
        LinkFailureSticks(es, n - 1, n, req, store, newId);
      } else {
        var e := es[n - 1];
        LinkUpToStep(es, n - 1, req, store, newId);
        LinkValueCases(e.val, req, store, newId);
        if e.val.Arr? && !IsSet(e.val.entries, RefKey) {
          LinkSucceedsIff(e.val.entries, req, store, newId);
        }
      }
    }
  }

  /** `RefIdsConvertible` over one more entry. */
  lemma RefIdsSnoc(es: seq<Entry>, n: nat)
    requires 0 < n <= |es|
    ensures RefIdsConvertible(es[..n]) <==>
              && RefIdsConvertible(es[..n - 1])
              && (es[n - 1].val.Arr? ==>
                    if IsSet(es[n - 1].val.entries, RefKey) then ConvertibleToObjectId(LookupOrNull(es[n - 1].val.entries, RefIdKey))
                    else RefIdsConvertible(es[n - 1].val.entries))
  {
    assert forall j :: 0 <= j < n - 1 ==> es[..n][j] == es[..n - 1][j];
    assert es[..n][n - 1] == es[n - 1];
  }
}
