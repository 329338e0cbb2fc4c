/** Removing one field of a document, `unset($document[$field])` at
    mongo.php:371, where the field name is the request's text turned into
    an array key. */
module FieldRemoval {
  import opened Results
  import opened PhpValues
  import opened Listing

  /** `unset`: every entry under `k` leaves the array, the others keep
      their order. */
  function Unset(es: seq<Entry>, k: Key): (r: seq<Entry>)
    ensures |r| <= |es|
    ensures forall i :: 0 <= i < |r| ==> r[i].key != k
  {
    if es == [] then []
    else (if es[0].key == k then [] else [es[0]]) + Unset(es[1..], k)
  }

  /** The field asked for by name: no entry is left under the key that the
      field's text denotes as an array key. */
  function RemoveField(doc: seq<Entry>, field: string): (r: seq<Entry>)
    ensures forall i :: 0 <= i < |r| ==> r[i].key != ArrayKey(field)
    ensures |r| <= |doc|
  {
    Unset(doc, ArrayKey(field))
  }

  /** Lookups of other keys see the same values as before. */
  lemma {:induction false} UnsetKeepsOtherLookups(es: seq<Entry>, k: Key, other: Key)
    requires other != k
    ensures Lookup(Unset(es, k), other) == Lookup(es, other)
    decreases |es|
  {
    if es != [] {
      UnsetKeepsOtherLookups(es[1..], k, other);
      LookupFirst(es, other);
      if es[0].key != k {
        var r := Unset(es, k);
        assert r == [es[0]] + Unset(es[1..], k);
        assert r[1..] == Unset(es[1..], k);
        LookupFirst(r, other);
      } else {
        assert Unset(es, k) == [] + Unset(es[1..], k) == Unset(es[1..], k);
      }
    }
  }

  /** A lookup checks the first entry, then the rest. */
  lemma LookupFirst(es: seq<Entry>, k: Key)
    requires es != []
    ensures Lookup(es, k) == if es[0].key == k then Some(es[0].val) else Lookup(es[1..], k)
  {
    if es[0].key != k {
      match IndexOf(es[1..], k)
      case None => {}
      case Some(j) => assert es[1..][j] == es[j + 1];
    }
  }

  /** In an array with unique keys, unset deletes exactly the one entry
      under `k`, or nothing when `k` is absent. */
  lemma {:induction false} UnsetDeletesEntry(es: seq<Entry>, k: Key)
    requires UniqueKeys(es)
    ensures IndexOf(es, k).None? ==> Unset(es, k) == es
    ensures IndexOf(es, k).Some? ==>
              Unset(es, k) == es[..IndexOf(es, k).value] + es[IndexOf(es, k).value + 1..]
    decreases |es|
  {
    if es != [] {
      UniqueKeysTail(es);
      UnsetDeletesEntry(es[1..], k);
      if es[0].key == k {
        UnsetAtHead(es, k);
      } else {
        UnsetPastHead(es, k);
      }
    }
  }

  lemma UniqueKeysTail(es: seq<Entry>)
    requires es != [] && UniqueKeys(es)
    ensures UniqueKeys(es[1..])
    ensures forall j :: 0 <= j < |es[1..]| ==> es[1..][j].key != es[0].key
  {
    forall i, j | 0 <= i < j < |es[1..]| ensures es[1..][i].key != es[1..][j].key {
      assert es[1..][i] == es[i + 1] && es[1..][j] == es[j + 1];
    }
    forall j | 0 <= j < |es[1..]| ensures es[1..][j].key != es[0].key {
      assert es[1..][j] == es[j + 1];
    }
  }

  /** The key of the first entry: only that entry goes. */
  lemma UnsetAtHead(es: seq<Entry>, k: Key)
    requires es != [] && es[0].key == k
    requires forall j :: 0 <= j < |es[1..]| ==> es[1..][j].key != k
    requires IndexOf(es[1..], k).None? ==> Unset(es[1..], k) == es[1..]
    ensures Unset(es, k) == es[..0] + es[1..]
  {
    assert IndexOf(es[1..], k).None?;
    assert Unset(es, k) == [] + Unset(es[1..], k);
  }

  /** A key past the first entry: the first entry stays in front. */
  lemma UnsetPastHead(es: seq<Entry>, k: Key)
    requires es != [] && es[0].key != k
    requires IndexOf(es[1..], k).None? ==> Unset(es[1..], k) == es[1..]
    requires IndexOf(es[1..], k).Some? ==>
               Unset(es[1..], k) == es[1..][..IndexOf(es[1..], k).value] + es[1..][IndexOf(es[1..], k).value + 1..]
    ensures IndexOf(es, k).None? ==> Unset(es, k) == es
    ensures IndexOf(es, k).Some? ==>
              Unset(es, k) == es[..IndexOf(es, k).value] + es[IndexOf(es, k).value + 1..]
  {
    assert Unset(es, k) == [es[0]] + Unset(es[1..], k);
    match IndexOf(es[1..], k)
    case None => {
      assert IndexOf(es, k) == None;
      assert [es[0]] + es[1..] == es;
    }
    case Some(j) => {
      assert IndexOf(es, k) == Some(j + 1);
      SplitAfterHead(es, j);
    }
  }

  /** Cutting out the entry at `j + 1` is keeping the head and cutting
      out the tail's entry at `j`. */
  lemma SplitAfterHead(es: seq<Entry>, j: nat)
    requires j + 1 < |es|
    ensures es[..j + 1] + es[j + 2..] == [es[0]] + (es[1..][..j] + es[1..][j + 1..])
  {
    assert es[..j + 1] == [es[0]] + es[1..][..j];
    assert es[j + 2..] == es[1..][j + 1..];
  }

  /** After removal the field reads as unset and its column shows `-`;
      every other column shows what it showed before. */
  lemma RemovedFieldPrintsDash(doc: seq<Entry>, field: string, other: Key)
    requires other != ArrayKey(field)
    ensures !IsSet(RemoveField(doc, field), ArrayKey(field))
    ensures PrintField(RemoveField(doc, field), ArrayKey(field)) == Str("-")
    ensures PrintField(RemoveField(doc, field), other) == PrintField(doc, other)
  {
    UnsetKeepsOtherLookups(doc, ArrayKey(field), other);
  }

  /** Removing a field keeps a real array's keys unique and changes nothing
      more when repeated. */
  lemma {:induction false} UnsetKeepsUniqueKeys(es: seq<Entry>, k: Key)
    requires UniqueKeys(es)
    ensures UniqueKeys(Unset(es, k))
    ensures Unset(Unset(es, k), k) == Unset(es, k)
  {
    UnsetDeletesEntry(es, k);
    if IndexOf(es, k).Some? {
      DeletionKeepsUniqueKeys(es, IndexOf(es, k).value);
    }
    UnsetAbsent(Unset(es, k), k);
  }

  /** Deleting one entry of an array with unique keys leaves them unique. */
  lemma DeletionKeepsUniqueKeys(es: seq<Entry>, i: nat)
    requires UniqueKeys(es) && i < |es|
    ensures UniqueKeys(es[..i] + es[i + 1..])
  {
    var r := es[..i] + es[i + 1..];
    forall a, b | 0 <= a < b < |r| ensures r[a].key != r[b].key {
      var a' := if a < i then a else a + 1;
      var b' := if b < i then b else b + 1;
      assert r[a] == es[a'] && r[b] == es[b'];
    }
  }

  /** Unset of an absent key changes nothing. */
  lemma {:induction false} UnsetAbsent(es: seq<Entry>, k: Key)
    requires forall i :: 0 <= i < |es| ==> es[i].key != k
    ensures Unset(es, k) == es
    decreases |es|
  {
    if es != [] {
      UnsetAbsent(es[1..], k);
      assert [es[0]] + es[1..] == es;
    }
  }
}
