/** Search by id, mongo.php:288-305: a search text that is not a JSON
    object is looked up as an ObjectID; when nothing is found the lookup is
    repeated as a "custom id" lookup, and a found document with an `_id`
    sends the browser to its page. */
module Search {
  import opened Results
  import opened ObjectIds
  import opened PhpValues
  import opened References
  import opened Listing

  /** What the action decides: whether the custom-id fallback was taken and
      the `Location` the browser is sent to, if any. */
  datatype Outcome = Outcome(customId: bool, location: Option<string>)

  /** The page of one document, as the redirect spells it. */
  function MatchUrl(self: string, db: string, collection: string, id: Value): (url: string)
    ensures url == DocumentHref(self, db, collection, PhpString(id), false)
  {
    CollectionHref(self, db, collection) + "&id=" + PhpString(id)
  }

  /** The redirect of a found ObjectID document is the link its row has
      in the listing. */
  lemma MatchUrlIsRowLink(self: string, db: string, collection: string, doc: seq<Entry>)
    requires LookupOrNull(doc, IdKey).ObjectId?
    ensures MatchUrl(self, db, collection, LookupOrNull(doc, IdKey)) == ViewHref(self, db, collection, doc)
  {
  }

  const CustomIdSuffix := "&custom_id=true"

  /** The search action. `search` is `$_REQUEST['search']`, `isJsonObject`
      says whether it decodes to a JSON object (such a search is a query,
      handled by the listing), `fallbackDb` is the database the second
      lookup is given. An error is the exception an invalid ObjectID text
      raises. */
  function SearchById(search: Option<string>, isJsonObject: bool, self: string, dbname: string,
                      fallbackDb: string, collection: string, store: Store, newId: OidBytes): (r: Result<Option<Outcome>, Error>)
    ensures search.None? || isJsonObject ==> r == Ok(None)
    ensures r.Err? <==> search.Some? && !isJsonObject && !IsObjectIdText(search.value)
  {
    if search.None? || isJsonObject then Ok(None)
    else
      var first :- FindDocument(store, Str(search.value), dbname, collection, newId);
      var customId := !Found(first);
      var document := if customId then FindDocument(store, Str(search.value), fallbackDb, collection, newId).value else first;
      var location :=
        if document.Some? && IsSet(document.value, IdKey) then
          var url := MatchUrl(self, dbname, collection, LookupOrNull(document.value, IdKey));
          Some(if customId then url + CustomIdSuffix else url)
        else None;
      Ok(Some(Outcome(customId, location)))
  }

  /** The identifier a valid search text names. */
  function SearchedId(s: string): OidBytes
    requires IsObjectIdText(s)
  {
    ParseObjectId(s).value
  }

  /** The document the redirect is built from: the first lookup's when it
      is truthy, otherwise the fallback's. */
  function Target(s: string, dbname: string, fallbackDb: string, collection: string, store: Store): Option<seq<Entry>>
    requires IsObjectIdText(s)
  {
    var first := store(dbname, collection, SearchedId(s));
    if Found(first) then first else store(fallbackDb, collection, SearchedId(s))
  }

  /** A valid search text looks the identifier up; the fallback is taken
      exactly when the first lookup finds nothing truthy, and the browser is
      redirected exactly when the chosen document has an `_id`, to that
      id's page, marked as a custom id exactly when the fallback was taken. */
  lemma SearchOutcome(s: string, self: string, dbname: string, fallbackDb: string,
                      collection: string, store: Store, newId: OidBytes)
    requires IsObjectIdText(s)
    ensures var r := SearchById(Some(s), false, self, dbname, fallbackDb, collection, store, newId);
            var doc := Target(s, dbname, fallbackDb, collection, store);
            r.Ok? && r.value.Some? &&
            (r.value.value.customId <==> !Found(store(dbname, collection, SearchedId(s)))) &&
            (r.value.value.location.Some? <==> doc.Some? && IsSet(doc.value, IdKey)) &&
            (r.value.value.location.Some? ==>
               r.value.value.location.value ==
                 MatchUrl(self, dbname, collection, LookupOrNull(doc.value, IdKey)) +
                 (if r.value.value.customId then CustomIdSuffix else ""))
  {
    assert ObjectIdOf(Str(s), newId) == Ok(SearchedId(s));
  }

  /** When the fallback asks the same database, it repeats the first
      lookup, so a custom-id redirect never happens. */
  lemma SameDatabaseFallbackNeverRedirects(s: string, self: string, dbname: string,
                                           collection: string, store: Store, newId: OidBytes)
    requires IsObjectIdText(s)
    ensures var r := SearchById(Some(s), false, self, dbname, dbname, collection, store, newId);
            r.Ok? && r.value.Some? && (r.value.value.customId ==> r.value.value.location.None?)
  {
    SearchOutcome(s, self, dbname, dbname, collection, store, newId);
  }

  /** Searching for the id printed for a stored document whose `_id` is
      that ObjectID redirects to the document's page, with the id spelled
      as the search spelled it when the search was lowercase. */
  lemma SearchFindsStoredDocument(id: OidBytes, doc: seq<Entry>, self: string, dbname: string,
                                  fallbackDb: string, collection: string, store: Store, newId: OidBytes)
    requires store(dbname, collection, id) == Some(doc)
    requires LookupOrNull(doc, IdKey) == ObjectId(id)
    ensures SearchById(Some(HexOf(id)), false, self, dbname, fallbackDb, collection, store, newId)
            == Ok(Some(Outcome(false, Some(CollectionHref(self, dbname, collection) + "&id=" + HexOf(id)))))
  {
    ParseHexOf(id);
    assert IsObjectIdText(HexOf(id));
    assert SearchedId(HexOf(id)) == id;
    assert |doc| > 0;
    SearchOutcome(HexOf(id), self, dbname, fallbackDb, collection, store, newId);
  }
}
