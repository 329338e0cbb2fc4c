# mongoadmin core, modelled in Dafny

`mongo.php` is a single-page MongoDB administration tool. This project is a Dafny model of its document logic. That logic has three tree rewrites:

- Documents are turned into editable text form (`prepareMongoDBDocumentForEdit`).
- Edited values are turned back into savable documents (`prepareValueForMongoDB`).
- Database references are turned into navigable links for the preview (`linkDocumentReferences`, with its lookup `findMongoDbDocument`).

The model also covers the request-level decisions around them:

- the search by id and its custom-id fallback;
- paging of the document list;
- the hiding of the system databases;
- the best-effort document count;
- the `-` placeholder of a missing column;
- the choice of server from the `mongo_server` cookie;
- field removal with `unset`;
- the `custom_id=1` marker on the links of documents whose `_id` is not an ObjectID.

PHP arrays are ordered sequences of key/value entries, and keys are integers or strings. Values are null, booleans, integers, strings, 12-byte ObjectIDs or nested arrays. The driver's database is an oracle `Store`: a database, a collection and an ObjectID map to the document found, if any. Three more things are parameters:

- `$_SERVER['PHP_SELF']`;
- the request's database;
- the identifier the driver generates for `new ObjectID(null)` (`newId`).

Each loop of the source is a method proved equal to a recursive specification function. The properties are proved about those functions:

- **Editing:** after preparation for editing, every id is a string. The step is idempotent and keeps keys unique.
- **Saving:** preparation for saving succeeds exactly when every id converts to an ObjectID. After it, every id is an ObjectID. With `custom_id` set, it is the identity.
- **Round trip:** saving an edited document whose ids are ObjectIDs gives back the original document.
- **Links:** following references succeeds exactly when every `$id` converts, and it rewrites exactly the `$ref`/`$id`/`$db` entries of each reference. This describes `linkDocumentReferences` as if its `selectDB` call at mongo.php:145 were absent. As written, that call throws an `Error` for every reference array (see "Left out").

Some properties hold of the code as written:

- `findMongoDbDocument` never reads its `forceCustomId` argument. So when the search's fallback asks the same database, it repeats the first lookup, and the `custom_id=true` redirect cannot happen.
- The document view ignores the `custom_id=1` marker that the listing puts on rows with non-ObjectID ids. So its lookup of such an id fails.

## Model

| member | source | states |
|---|---|---|
| EditPreparation.PrepareForEdit | mongo.php:226-244 | the loop builds exactly the edit form of the document: same keys in the same order, id values cast to strings, nested arrays prepared recursively, other values kept |
| EditPreparation.ForEditUpTo | mongo.php:228-243 | the prepared prefix has one entry per input entry, each under the input entry's key |
| EditPreparation.ForEditAt | mongo.php:230-242 | entry by entry: `_id`/`$id` values become their `(string)` form, arrays under other keys are prepared recursively, everything else is kept |
| EditPreparation.ForEditIdsAreStrings | mongo.php:230-235 | after preparation, every `_id` and `$id` value at any depth is a string |
| EditPreparation.ForEditIdempotent | mongo.php:226-244 | preparing an already prepared document changes nothing |
| EditPreparation.ForEditWellFormed | mongo.php:238-242 | preparation keeps every array's keys unique at every depth |
| SavePreparation.PrepareForSave | mongo.php:200-216 | the loop computes exactly the save form, or the first conversion error, which ends the walk |
| SavePreparation.PrepareEntry | mongo.php:202-214 | one pass of the loop body extends the prepared prefix by exactly the next entry of the save form, or yields its conversion error |
| SavePreparation.ForSaveUpTo | mongo.php:200-215 | a successful walk keeps one entry per input entry, under the same key |
| SavePreparation.ForSaveAt | mongo.php:201-214 | entry by entry: without `custom_id`, `_id`/`$id` values become `new ObjectID($v)`; arrays are prepared recursively; other values are kept |
| SavePreparation.ForSaveCustomIdIsIdentity | mongo.php:183-214 | with `custom_id` set, preparation returns the document unchanged |
| SavePreparation.ForSaveSucceedsIff | mongo.php:201-207 | without `custom_id`, preparation succeeds exactly when every `_id`/`$id` value at any depth is accepted by `new ObjectID` |
| SavePreparation.ForSaveIdsAreObjectIds | mongo.php:201-207 | after a successful preparation, every `_id`/`$id` value is an ObjectID |
| SavePreparation.SaveAfterEditRoundTrip | mongo.php:200-244 | saving the edit form of a document whose ids are ObjectIDs gives back the document |
| SavePreparation.SaveIsStableUnderEditing | mongo.php:200-244 | editing and re-saving a saved document gives the same saved document, whatever identifier a null id would draw |
| References.FindDocument | mongo.php:257-279 | the lookup fails exactly when the id is not convertible to an ObjectID (the conversion is outside the try block); otherwise it returns the store's document for that ObjectID |
| References.TargetDb | mongo.php:153 | the links point into the request's database when `$db` is unset, and into the `$db` text when it is a string |
| References.LinkReference | mongo.php:144-165 | rewriting one reference fails exactly when its `$id` does not convert to an ObjectID |
| References.LinkUpTo | mongo.php:141-170 | a successful walk keeps the entry count and every key |
| References.LinkDocumentReferences | mongo.php:139-172 | the loop computes exactly the linked document, or the first lookup error |
| References.LinkAt | mongo.php:141-170 | entry by entry: scalars are kept; arrays with `$ref` are rewritten as one reference; other arrays are walked recursively |
| References.LinkReferenceKeepsOtherEntries | mongo.php:155-165 | a rewritten reference keeps its keys, adds `$id` only when it was missing, keeps unique keys, and keeps every entry other than `$ref`, `$id` and `$db` |
| References.LinkReferenceTargets | mongo.php:148-165 | `$ref` links to its collection in `$db` or the request's database; `$id` links to the document, marked `custom_id=1` exactly when the lookup's `_id` is not an ObjectID; `$db` is linked only when set |
| References.LinkSucceedsIff | mongo.php:139-172 | with the `selectDB` call of line 145 taken as absent, following references succeeds exactly when the `$id` of every reference, at any depth, converts to an ObjectID |
| Search.SearchById | mongo.php:288-305 | no lookup happens without a search or for a JSON-object search; the action fails exactly when the search text is not ObjectID text |
| Search.MatchUrl | mongo.php:298 | the redirect target is the document's page link, without the custom-id marker |
| Search.MatchUrlIsRowLink | mongo.php:298 | for a document with an ObjectID `_id`, the redirect target is the link its row has in the listing |
| Search.SearchOutcome | mongo.php:289-304 | the fallback is taken exactly when the first lookup is not truthy; the browser is redirected exactly when the chosen document has a set `_id`, to that id's page, with `&custom_id=true` exactly when the fallback was taken |
| Search.SameDatabaseFallbackNeverRedirects | mongo.php:288-303 | when the fallback asks the same database, a custom-id search never redirects |
| Search.SearchFindsStoredDocument | mongo.php:288-301 | searching for the printed id of a stored ObjectID document redirects to that document's page without the custom marker |
| Pagination.PageCount | mongo.php:725 | the page count is the ceiling of total / 200: enough pages for every document, and no page more |
| Pagination.RequestedPage | mongo.php:676 | no `page` parameter means page 1; otherwise the page given |
| Pagination.Skip | mongo.php:679 | the skip is a whole number of pages, and is not negative for a positive page |
| Pagination.DefaultPageIsFirst | mongo.php:676-679 | without a `page` parameter nothing is skipped and the request is never sent back |
| Pagination.RedirectsBack | mongo.php:727 | only a page after the first can be sent back |
| Pagination.ShowsPager | mongo.php:740 | the pager is never shown for fewer than two pages |
| Pagination.SkipAdvancesByPage | mongo.php:674-679 | page 1 skips nothing and each further page skips 200 more documents |
| Pagination.PageCountZeroIff | mongo.php:725-727 | there are no pages exactly when the collection is empty |
| Pagination.RedirectIffPastEnd | mongo.php:725-730 | for every page number, the request is sent back exactly when the collection is non-empty and the page starts past its last document |
| Pagination.PageAfterLastRedirects | mongo.php:725-730 | the page after the last is sent back |
| Pagination.PagerIffMoreThanOnePage | mongo.php:740 | the pager is shown exactly when the collection holds more than 200 documents |
| Listing.ListDatabases | mongo.php:609-610 | the loop lists the server's databases in order, skipping `local` and `admin` |
| Listing.VisibleIff | mongo.php:609-610 | a database is listed exactly when the server reports it and it is neither `local` nor `admin` |
| Listing.VisibleAppend | mongo.php:609-610 | the filtering keeps the server's order: it distributes over concatenation |
| Listing.CollectionCount | mongo.php:58-74 | an ok reply gives its `n`; a failed reply or an exception gives 0 |
| Listing.FailedCountShowsOnePage | mongo.php:58-74 | a failed count never sends the request back and shows no pager |
| Listing.CountGovernsPager | mongo.php:58-74 | with an ok reply, the pager is shown exactly when `n` exceeds 200 |
| Listing.PrintField | mongo.php:77-80 | a set field shows its value; an unset or null field shows `-` |
| Listing.ViewHref | mongo.php:800-811 | the id link is the collection link, `&id=` and the `(string)` of the row's `_id`, then `&custom_id=1` exactly when that `_id` is not an ObjectID |
| Listing.DeleteHref | mongo.php:851-858 | the delete link exists exactly when not read-only; it is the collection link, `&delete_document=` and the `_id` text, then `&custom_id=1` exactly when that `_id` is not an ObjectID |
| Listing.RowLinkParts | mongo.php:800-857 | both row links carry the `(string)` of the row's `_id` and the same `&custom_id=1` marker; the delete link exists exactly when not read-only |
| Listing.ObjectIdRowLinkResolves | mongo.php:800-804 | a row with an ObjectID `_id` links without the marker, and the view's lookup of the link's id finds that identifier |
| Listing.CustomIdRowLinkFails | mongo.php:806-810 | a row whose `_id` is a non-ObjectID string links with the marker, and the view's lookup of that id fails |
| Servers.CookieChoice | mongo.php:109 | a cookie selects a list position only when its text is that position's decimal form |
| Servers.GetServer | mongo.php:105-114 | a single setting is used as given; a list yields one of its URIs, and only a null one when it is empty |
| Servers.CookieSelectsServer | mongo.php:109 | a cookie holding the decimal text of a list position selects that URI |
| Servers.OtherCookiesPickFirst | mongo.php:109 | any other cookie, or none, selects the first URI |
| FieldRemoval.Unset | mongo.php:371 | after `unset` no entry remains under the key and the array does not grow |
| FieldRemoval.RemoveField | mongo.php:371 | no entry is left under the array key that the field's text denotes, and the document does not grow |
| FieldRemoval.UnsetKeepsOtherLookups | mongo.php:371 | every other key reads the same value as before |
| FieldRemoval.UnsetDeletesEntry | mongo.php:371 | in a real array, `unset` deletes exactly the key's one entry and keeps the order of the rest, or changes nothing when the key is absent |
| FieldRemoval.UnsetKeepsUniqueKeys | mongo.php:371 | `unset` keeps keys unique, and repeating it changes nothing |
| FieldRemoval.RemovedFieldPrintsDash | mongo.php:371 | after removal the field is unset and prints as `-`, while every other field prints as before |
| PhpValues.Put | mongo.php:240 | an assignment to a missing key appends an entry; to a present key, it overwrites that entry in place |
| PhpValues.PutProperties | mongo.php:240 | assignment keeps keys unique, makes the key read the new value, leaves every other key's value alone, and adds a key only when it was absent |
| PhpValues.ArrayKey | mongo.php:109 | request text becomes an integer key only when it is that integer's canonical decimal text; otherwise it stays a string key |
| PhpValues.ArrayKeyOfIntString | mongo.php:109 | every integer's decimal text names that integer's key |
| PhpValues.PhpStringReadsBack | mongo.php:231 | the `(string)` of a string is itself, of an integer reads back as that integer's key, and of an ObjectID parses back to its bytes |
| PhpValues.ObjectIdOf | mongo.php:203-207 | `new ObjectID($v)` draws the generated identifier for null, keeps an ObjectID, and refuses an array with a type error |
| PhpValues.FoundIffSomeKey | mongo.php:149 | a lookup result is truthy exactly when a document was found that holds at least one entry |
| PhpValues.HasObjectIdKey | mongo.php:157 | an ObjectID `_id` is only ever seen on a found document |
| PhpValues.ObjectIdOfSucceeds | mongo.php:201-207 | `new ObjectID($v)` succeeds exactly for null, an ObjectID, or a scalar whose string form is 24 hex digits |
| PhpValues.ObjectIdOfHexOf | mongo.php:201-207 | the `(string)` form of an ObjectID converts back to that ObjectID |
| ObjectIds.ParseObjectId | mongo.php:203 | ObjectID text is accepted exactly when it is 24 hex digits in either case |
| ObjectIds.HexOf | mongo.php:231 | the string form of an ObjectID has 24 characters |
| ObjectIds.ParseHexOf | mongo.php:231 | parsing the string form of an ObjectID gives back that ObjectID |
| ObjectIds.HexOfParse | mongo.php:203 | printing a parsed ObjectID gives the lowercase form of the accepted text |
| Decimal.ParseIndexOfNatToString | mongo.php:109 | the decimal text of a natural number parses back to that number |
| Decimal.NatToStringOfParseIndex | mongo.php:109 | text that parses as an index is exactly that index's decimal text |
| Decimal.NatToString | mongo.php:109 | decimal text is non-empty, all digits, and has no leading zero |

## Left out

- The text decoding at the top of `prepareValueForMongoDB` (mongo.php:186-196) is not modelled. It rewrites driver `__set_state` exports with regular expressions and evaluates the result as PHP code. The model starts from the decoded array. The `Binary` pattern's `[1,2,3,5,128]` is a character class that matches one character. So no claim is made that subtypes are validated.
- `new ObjectID()` calls for null ids are all given the same generated identifier, `newId`, instead of one fresh identifier each.
- The driver calls (queries, commands, `save`, `remove`, database and collection drops) are the `Store` oracle and the `CountReply` value, or are not modelled.
- Each action's HTTP plumbing is not modelled: `header`, `exit`, cookies, `$_REQUEST` parsing and `HTTP_REFERER`.
- The save action's debugging `print_r(...); exit;` (mongo.php:384) ends the request before anything is saved. This is not modelled.
- HTML output, `print_r` and `var_export` rendering, and `renderDocumentPreview` are not modelled. Only the link texts the walk stores are.
- The `selectDB` call at mongo.php:145 is not modelled. The driver's `Manager` has no `selectDB` method, so as written PHP throws an `Error` there for every array that has `$ref`, and the walk never reaches its rewrite. The model describes `linkDocumentReferences` as if that call were absent.
- The driver hands documents back as `stdClass` objects, not arrays. The model treats every document as an array, including in `printField` and the listing. With the driver's default type map, embedded documents are objects too. So as written, the `is_array` tests at mongo.php:143, 210 and 236 never descend into them, and no DBRef inside a fetched document is ever linked.
- Search.SearchById: the second lookup at mongo.php:293 passes the undefined `$db`. The model takes that database as a parameter, `fallbackDb`.
- Search.SearchById: whether the search text decodes to a JSON object is a parameter. The model does not decode JSON.
- Pagination.RedirectsBack: `$page` is taken as an integer. PHP's loose comparison of request text with numbers is not modelled.
- Servers.GetServer: the server setting is either a single URI or a list indexed from 0. Settings with string keys are not modelled.
- The field-removal action's `selectDB` chain at mongo.php:366-368 is not modelled. As written, it throws an `Error` before the `unset` at mongo.php:371 is reached. The model describes the action as if that call were absent. The lookup, save and redirect (mongo.php:370-376) are not modelled either. Only the `unset` is.
- The hidden `custom_id` input of the form below the listing (mongo.php:872-874) is not modelled.
- Integers are unbounded. PHP's 64-bit integer limits, and a key text beyond them staying a string key, are not modelled.
