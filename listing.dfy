/** Decisions of the database and document listings: which databases are
    shown (mongo.php:609-610), the best-effort document count
    (mongo.php:58-74), the per-column value (mongo.php:77-80) and the
    view and delete links of a document row (mongo.php:800-811, 851-857). */
module Listing {
  import opened Results
  import opened ObjectIds
  import opened PhpValues
  import opened References
  import opened Pagination

  /** `in_array($db->name, array('local','admin'))`. */
  predicate IsHidden(name: string) {
    name == "local" || name == "admin"
  }

  /** The databases the index page lists, in the server's order. */
  function VisibleDatabases(names: seq<string>): seq<string> {
    if |names| == 0 then []
    else VisibleDatabases(names[..|names| - 1]) + (if IsHidden(names[|names| - 1]) then [] else [names[|names| - 1]])
  }

  /** The loop over the server's databases that skips the system ones. */
  method ListDatabases(names: seq<string>) returns (shown: seq<string>)
    ensures shown == VisibleDatabases(names)
  {
    shown := [];
    var i := 0;
    while i < |names|
      invariant 0 <= i <= |names|
      invariant shown == VisibleDatabases(names[..i])
    {
      assert names[..i + 1][..i] == names[..i];
      if IsHidden(names[i]) {
        i := i + 1;
        continue;
      }
      shown := shown + [names[i]];
      i := i + 1;
    }
    assert names[..i] == names;
  }

  /** A database is listed exactly when the server reports it and it is
      not a system database. */
  lemma {:induction false} VisibleIff(names: seq<string>, name: string)
    ensures name in VisibleDatabases(names) <==> name in names && !IsHidden(name)
    decreases |names|
  {
    if |names| > 0 {
      var init := names[..|names| - 1];
      VisibleIff(init, name);
      assert names == init + [names[|names| - 1]];
    }
  }

  /** Filtering keeps the server's order: it distributes over
      concatenation. */
  lemma {:induction false} VisibleAppend(a: seq<string>, b: seq<string>)
    ensures VisibleDatabases(a + b) == VisibleDatabases(a) + VisibleDatabases(b)
    decreases |b|
  {
    if |b| == 0 {
      assert a + b == a;
    } else {
      var init := b[..|b| - 1];
      VisibleAppend(a, init);
      assert (a + b)[..|a + b| - 1] == a + init;
      assert b == init + [b[|b| - 1]];
    }
  }

  /** What the count command gives back: an exception, or a reply with its
      `ok` flag and `n`. */
  datatype CountReply = Raised | Reply(ok: bool, n: nat)

  /** getCollectionCount: `n` when the reply is ok, 0 otherwise. */
  function CollectionCount(reply: CountReply): (count: nat)
    ensures reply.Reply? && reply.ok ==> count == reply.n
    ensures !(reply.Reply? && reply.ok) ==> count == 0
  {
    if reply.Reply? && reply.ok then reply.n else 0
  }

  /** A failed count never breaks the listing: no page is sent back and no
      pager is shown. */
  lemma FailedCountShowsOnePage(reply: CountReply, page: int)
    requires !(reply.Reply? && reply.ok)
    ensures !RedirectsBack(page, PageCount(CollectionCount(reply)))
    ensures !ShowsPager(PageCount(CollectionCount(reply)))
  {
    PageCountZeroIff(CollectionCount(reply));
  }

  /** A successful count governs the pager: it is shown exactly when the
      collection holds more than one page of documents. */
  lemma CountGovernsPager(n: nat)
    ensures ShowsPager(PageCount(CollectionCount(Reply(true, n)))) <==> n > PageSize
  {
    PagerIffMoreThanOnePage(n);
  }

  /** printField: the field's value when set, `-` otherwise. */
  function PrintField(doc: seq<Entry>, name: Key): (shown: Value)
    ensures IsSet(doc, name) ==> Lookup(doc, name) == Some(shown) && !shown.Null?
    ensures !IsSet(doc, name) ==> shown == Str("-")
  {
    if IsSet(doc, name) then LookupOrNull(doc, name) else Str("-")
  }

  /** A row's links carry `&custom_id=1` unless its `_id` is an ObjectID. */
  predicate NeedsCustomIdFlag(doc: seq<Entry>) {
    !LookupOrNull(doc, IdKey).ObjectId?
  }

  /** The id cell's link. */
  function ViewHref(self: string, db: string, collection: string, doc: seq<Entry>): (href: string)
    ensures var prefix := CollectionHref(self, db, collection) + "&id=" + PhpString(LookupOrNull(doc, IdKey));
            && |prefix| <= |href| && href[..|prefix|] == prefix
            && href[|prefix|..] == (if NeedsCustomIdFlag(doc) then "&custom_id=1" else "")
  {
    DocumentHref(self, db, collection, PhpString(LookupOrNull(doc, IdKey)), NeedsCustomIdFlag(doc))
  }

  /** The delete cell's link, absent in read-only mode. */
  function DeleteHref(self: string, db: string, collection: string, doc: seq<Entry>, readOnly: bool): (href: Option<string>)
    ensures href.Some? <==> !readOnly
    ensures href.Some? ==>
              var prefix := CollectionHref(self, db, collection) + "&delete_document=" + PhpString(LookupOrNull(doc, IdKey));
              && |prefix| <= |href.value| && href.value[..|prefix|] == prefix
              && href.value[|prefix|..] == (if NeedsCustomIdFlag(doc) then "&custom_id=1" else "")
  {
    if readOnly then None
    else Some(CollectionHref(self, db, collection) + "&delete_document=" + PhpString(LookupOrNull(doc, IdKey))
              + (if NeedsCustomIdFlag(doc) then "&custom_id=1" else ""))
  }

  /** Both links of a row name the row's id text and carry the same
      custom-id marker; the delete link is there exactly when the listing
      is not read-only. */
  lemma RowLinkParts(self: string, db: string, collection: string, doc: seq<Entry>, readOnly: bool)
    ensures var idText := PhpString(LookupOrNull(doc, IdKey));
            var marker := if NeedsCustomIdFlag(doc) then "&custom_id=1" else "";
            var view := ViewHref(self, db, collection, doc);
            var viewPrefix := CollectionHref(self, db, collection) + "&id=" + idText;
            var deletePrefix := CollectionHref(self, db, collection) + "&delete_document=" + idText;
            && |viewPrefix| <= |view| && view[..|viewPrefix|] == viewPrefix && view[|viewPrefix|..] == marker
            && (DeleteHref(self, db, collection, doc, readOnly).Some? <==> !readOnly)
            && (!readOnly ==>
                 var del := DeleteHref(self, db, collection, doc, readOnly).value;
                 |deletePrefix| <= |del| && del[..|deletePrefix|] == deletePrefix && del[|deletePrefix|..] == marker)
  {
  }

  /** A row whose `_id` is an ObjectID links without the custom flag, and
      the id text in its link leads the document view's lookup
      (mongo.php:903) back to exactly that identifier. */
  lemma ObjectIdRowLinkResolves(doc: seq<Entry>, oid: OidBytes, store: Store, db: string, collection: string, newId: OidBytes)
    requires LookupOrNull(doc, IdKey) == ObjectId(oid)
    ensures !NeedsCustomIdFlag(doc)
    ensures FindDocument(store, Str(PhpString(LookupOrNull(doc, IdKey))), db, collection, newId) == Ok(store(db, collection, oid))
  {
    ObjectIdOfHexOf(oid, newId);
  }

  /** A row whose `_id` is a string that is not ObjectID text links with
      the custom flag, yet the document view (mongo.php:903) ignores the
      flag and its lookup of that text fails. */
  lemma CustomIdRowLinkFails(doc: seq<Entry>, store: Store, db: string, collection: string, newId: OidBytes)
    requires LookupOrNull(doc, IdKey).Str? && !IsObjectIdText(LookupOrNull(doc, IdKey).s)
    ensures NeedsCustomIdFlag(doc)
    ensures FindDocument(store, Str(PhpString(LookupOrNull(doc, IdKey))), db, collection, newId).Err?
  {
  }
}
