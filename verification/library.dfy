/** The generic enum-keyed store `Library<TValue>`: a list of stored items,
    each identified by the full name of its key's enum type and the key's
    integer value, with a read that falls back to a default value and an
    upsert guarded by an allow-list of enum types.

    The list is modelled as a `seq<StoredItem<V>>`. The two abstract hooks of
    the class, `AuthorizedEnums()` and `DefaultValue()`, become a `Hooks`
    record supplied by the concrete library. */
module Library {
  import opened Outcomes

  /** A key as the library sees it: the full name of the key's enum type and
      the key's integer value. */
  datatype EnumKey = EnumKey(typeName: string, value: int)

  /** One persisted association. */
  datatype StoredItem<V> = StoredItem(enumName: string, key: int, value: V)
  {
    /** The item is stored under the enum type named `enumFullName` and the
        integer value `keyIntValue`: both parts of its key agree. */
    predicate Matches(enumFullName: string, keyIntValue: int)
      ensures Matches(enumFullName, keyIntValue) <==> Key() == EnumKey(enumFullName, keyIntValue)
    {
      enumName == enumFullName && key == keyIntValue
    }

    function Key(): EnumKey {
      EnumKey(enumName, key)
    }
  }

  /** What a concrete library declares: the enum types it accepts (by full
      name) and the value `Get` returns for a key it does not hold. */
  datatype Hooks<V> = Hooks(authorized: set<string>, defaultValue: V)

  /** The exception `Set` raises for an enum type outside the allow-list. */
  datatype SetError = ArgumentOutOfRange(enumType: string)

  predicate MatchesKey<V>(item: StoredItem<V>, key: EnumKey) {
    item.Matches(key.typeName, key.value)
  }

  /** The invariant `Set` maintains: at most one item per (enum name, key). */
  ghost predicate Unique<V>(db: seq<StoredItem<V>>) {
    forall i, j :: 0 <= i < j < |db| ==> db[i].Key() != db[j].Key()
  }

  /** Abstract view of the database: the value a lookup of each key yields.
      The first matching item wins, as in a front-to-back search. */
  ghost function View<V>(db: seq<StoredItem<V>>): map<EnumKey, V>
  {
    if |db| == 0 then map[] else View(db[1..])[db[0].Key() := db[0].value]
  }

  /** The items stored for `key`, in database order. */
  function Matching<V>(db: seq<StoredItem<V>>, key: EnumKey): seq<StoredItem<V>>
  {
    if |db| == 0 then []
    else (if MatchesKey(db[0], key) then [db[0]] else []) + Matching(db[1..], key)
  }

  /** The items stored for every key other than `key`, in database order. */
  function Others<V>(db: seq<StoredItem<V>>, key: EnumKey): seq<StoredItem<V>>
  {
    if |db| == 0 then []
    else (if MatchesKey(db[0], key) then [] else [db[0]]) + Others(db[1..], key)
  }

  /** `Search`: the position of the first item that matches `key`, as found
      by `List.Find`; `None` stands for the null it yields when none does. */
  function Search<V>(db: seq<StoredItem<V>>, key: EnumKey): (r: Option<nat>)
    ensures r.Some? ==> r.value < |db| && MatchesKey(db[r.value], key)
    ensures r.Some? ==> forall j :: 0 <= j < r.value ==> !MatchesKey(db[j], key)
    ensures r.None? ==> forall j :: 0 <= j < |db| ==> !MatchesKey(db[j], key)
  {
    if |db| == 0 then None
    else if MatchesKey(db[0], key) then Some(0)
    else match Search(db[1..], key)
      case None => None
      case Some(i) => Some(i + 1)
  }

  /** `List.Remove` of the item `Search` found: it is the first element equal
      to that item by reference, so it is the element at the found position. */
  function RemoveAt<V>(db: seq<StoredItem<V>>, i: nat): (r: seq<StoredItem<V>>)
    requires i < |db|
    ensures |r| == |db| - 1
    ensures forall j :: 0 <= j < i ==> r[j] == db[j]
    ensures forall j :: i <= j < |r| ==> r[j] == db[j + 1]
  {
    db[..i] + db[i + 1..]
  }

  /** `Get`: the value of the first item stored for `key`, or the default
      value when there is none. */
  function Get<V>(hooks: Hooks<V>, db: seq<StoredItem<V>>, key: EnumKey): (r: V)
    ensures key in View(db) ==> r == View(db)[key]
    ensures key !in View(db) ==> r == hooks.defaultValue
  {
    SearchAgreesWithView(db, key);
    match Search(db, key)
    case Some(i) => db[i].value
    case None => hooks.defaultValue
  }

  /** `Set`: rejects an enum type outside the allow-list before touching the
      database; otherwise removes the item stored for `key`, if any, and
      appends the new one. On `Failure` the database is left as it was. */
  function Set<V>(hooks: Hooks<V>, db: seq<StoredItem<V>>, key: EnumKey, value: V)
    : (r: Result<seq<StoredItem<V>>, SetError>)
    ensures r.Failure? <==> key.typeName !in hooks.authorized
    ensures r.Failure? ==> r.error == ArgumentOutOfRange(key.typeName)
    ensures r.Success? ==> |r.value| == |db| + (if key in View(db) then 0 else 1)
    ensures r.Success? ==> r.value[|r.value| - 1] == StoredItem(key.typeName, key.value, value)
  {
    SearchAgreesWithView(db, key);
    if key.typeName !in hooks.authorized then Failure(ArgumentOutOfRange(key.typeName))
    else Success(Kept(db, key) + [StoredItem(key.typeName, key.value, value)])
  }

  /** The database `Set` builds before appending: without the item `Search`
      finds for `key`, if there is one. */
  function Kept<V>(db: seq<StoredItem<V>>, key: EnumKey): (kept: seq<StoredItem<V>>)
    ensures |kept| == |db| - (if Search(db, key).Some? then 1 else 0)
    ensures Others(kept, key) == Others(db, key)
    ensures Matching(kept, key) == if |Matching(db, key)| == 0 then [] else Matching(db, key)[1..]
  {
    match Search(db, key)
    case Some(i) =>
      RemoveFoundItem(db, key);
      RemoveAt(db, i)
    case None =>
      NoMatchNothingMatching(db, key);
      db
  }

  // ---------------------------------------------------------------------
  // The search and the abstract view

  /** A search succeeds exactly for the keys of the view, and finds the value
      the view assigns. */
  lemma {:induction false} SearchAgreesWithView<V>(db: seq<StoredItem<V>>, key: EnumKey)
    ensures Search(db, key).Some? <==> key in View(db)
    ensures Search(db, key).Some? ==> View(db)[key] == db[Search(db, key).value].value
  {
    if |db| > 0 {
      SearchAgreesWithView(db[1..], key);
      if !MatchesKey(db[0], key) {
        assert db[0].Key() != key;
      }
    }
  }

  /** Forgetting the items for `key` forgets exactly `key` in the view. */
  lemma {:induction false} ViewOfOthers<V>(db: seq<StoredItem<V>>, key: EnumKey)
    ensures View(Others(db, key)) == View(db) - {key}
  {
    if |db| > 0 {
      ViewOfOthers(db[1..], key);
      var rest := Others(db[1..], key);
      var tailView := View(db[1..]);
      if MatchesKey(db[0], key) {
        assert Others(db, key) == rest;
        assert View(db) - {key} == tailView - {key};
      } else {
        assert Others(db, key) == [db[0]] + rest;
        assert ([db[0]] + rest)[1..] == rest;
        assert db[0].Key() != key;
        assert View(db) - {key} == (tailView - {key})[db[0].Key() := db[0].value];
      }
    }
  }

  lemma {:induction false} FiltersAppend<V>(a: seq<StoredItem<V>>, b: seq<StoredItem<V>>, key: EnumKey)
    ensures Matching(a + b, key) == Matching(a, key) + Matching(b, key)
    ensures Others(a + b, key) == Others(a, key) + Others(b, key)
  {
    if |a| == 0 {
      assert a + b == b;
    } else {
      assert (a + b)[1..] == a[1..] + b;
      FiltersAppend(a[1..], b, key);
    }
  }

  lemma {:induction false} NoMatchNothingMatching<V>(db: seq<StoredItem<V>>, key: EnumKey)
    requires forall j :: 0 <= j < |db| ==> !MatchesKey(db[j], key)
    ensures Matching(db, key) == []
    ensures Others(db, key) == db
  {
    if |db| > 0 {
      NoMatchNothingMatching(db[1..], key);
    }
  }

  /** Removing the item `Search` found drops the first of the items for
      `key` and keeps every other item in order. */
  lemma {:induction false} RemoveFoundItem<V>(db: seq<StoredItem<V>>, key: EnumKey)
    requires Search(db, key).Some?
    ensures |Matching(db, key)| > 0
    ensures Matching(RemoveAt(db, Search(db, key).value), key) == Matching(db, key)[1..]
    ensures Others(RemoveAt(db, Search(db, key).value), key) == Others(db, key)
  {
    var i := Search(db, key).value;
    if i == 0 {
      assert RemoveAt(db, 0) == db[1..];
    } else {
      var tail := db[1..];
      assert Search(tail, key) == Some(i - 1);
      RemoveFoundItem(tail, key);
      assert RemoveAt(db, i) == [db[0]] + RemoveAt(tail, i - 1);
      assert RemoveAt(db, i)[1..] == RemoveAt(tail, i - 1);
    }
  }

  /** Under the invariant, a key has at most one item. */
  lemma {:induction false} UniqueAtMostOne<V>(db: seq<StoredItem<V>>, key: EnumKey)
    requires Unique(db)
    ensures |Matching(db, key)| <= 1
  {
    if |db| > 0 {
      var tail := db[1..];
      assert Unique(tail) by {
        forall i, j | 0 <= i < j < |tail| ensures tail[i].Key() != tail[j].Key() {
          assert tail[i] == db[i + 1] && tail[j] == db[j + 1];
        }
      }
      UniqueAtMostOne(tail, key);
      if MatchesKey(db[0], key) {
        forall j | 0 <= j < |tail| ensures !MatchesKey(tail[j], key) {
          assert tail[j] == db[j + 1];
        }
        NoMatchNothingMatching(tail, key);
      }
    }
  }

  /** Under the invariant, nothing `Set` keeps is stored for `key`. */
  lemma KeptHasNoMatch<V>(db: seq<StoredItem<V>>, key: EnumKey)
    requires Unique(db)
    ensures forall j :: 0 <= j < |Kept(db, key)| ==> !MatchesKey(Kept(db, key)[j], key)
  {
    match Search(db, key)
    case None =>
    case Some(i) =>
      var kept := RemoveAt(db, i);
      forall j | 0 <= j < |kept| ensures !MatchesKey(kept[j], key) {
        if j < i {
          assert kept[j] == db[j];
        } else {
          assert kept[j] == db[j + 1];
          assert db[i].Key() != db[j + 1].Key();
        }
      }
  }

  // ---------------------------------------------------------------------
  // Properties of Set

  /** `Set` leaves every item for another key in place and in order, drops
      the first item for `key` and puts the new item last among the items
      for `key`. No uniqueness is needed for this. */
  lemma SetKeepsOthers<V>(hooks: Hooks<V>, db: seq<StoredItem<V>>, key: EnumKey, value: V)
    requires key.typeName in hooks.authorized
    ensures var r := Set(hooks, db, key, value).value;
      && Others(r, key) == Others(db, key)
      && Matching(r, key)
         == (if |Matching(db, key)| == 0 then [] else Matching(db, key)[1..])
            + [StoredItem(key.typeName, key.value, value)]
  {
    var item := StoredItem(key.typeName, key.value, value);
    var kept := Kept(db, key);
    FiltersAppend(kept, [item], key);
    assert Matching([item], key) == [item] by {
      assert ([item])[1..] == [];
    }
    assert Others([item], key) == [] by {
      assert ([item])[1..] == [];
    }
  }

  /** `Set` keeps the database free of duplicate keys. */
  lemma SetPreservesUnique<V>(hooks: Hooks<V>, db: seq<StoredItem<V>>, key: EnumKey, value: V)
    requires Unique(db)
    requires key.typeName in hooks.authorized
    ensures Unique(Set(hooks, db, key, value).value)
  {
    var item := StoredItem(key.typeName, key.value, value);
    var kept := Kept(db, key);
    KeptHasNoMatch(db, key);
    assert Unique(kept) by {
      match Search(db, key)
      case None =>
      case Some(i) =>
        forall a, b | 0 <= a < b < |kept| ensures kept[a].Key() != kept[b].Key() {
          var a' := if a < i then a else a + 1;
          var b' := if b < i then b else b + 1;
          assert kept[a] == db[a'] && kept[b] == db[b'];
        }
    }
    var r := kept + [item];
    forall a, b | 0 <= a < b < |r| ensures r[a].Key() != r[b].Key() {
      if b == |kept| {
        assert r[a] == kept[a];
        assert !MatchesKey(kept[a], key);
      } else {
        assert r[a] == kept[a] && r[b] == kept[b];
      }
    }
  }

  /** After a successful `Set(key, value)`, `Get(key)` returns `value`. */
  lemma SetThenGet<V>(hooks: Hooks<V>, db: seq<StoredItem<V>>, key: EnumKey, value: V)
    requires Unique(db)
    requires key.typeName in hooks.authorized
    ensures Get(hooks, Set(hooks, db, key, value).value, key) == value
  {
    var item := StoredItem(key.typeName, key.value, value);
    var kept := Kept(db, key);
    KeptHasNoMatch(db, key);
    assert Search(kept + [item], key) == Some(|kept|) by {
      SearchPastNoMatch(kept, [item], key);
    }
    SearchAgreesWithView(kept + [item], key);
  }

  lemma {:induction false} SearchPastNoMatch<V>(a: seq<StoredItem<V>>, b: seq<StoredItem<V>>, key: EnumKey)
    requires forall j :: 0 <= j < |a| ==> !MatchesKey(a[j], key)
    requires |b| > 0 && MatchesKey(b[0], key)
    ensures Search(a + b, key) == Some(|a|)
  {
    if |a| == 0 {
      assert a + b == b;
    } else {
      assert (a + b)[1..] == a[1..] + b;
      SearchPastNoMatch(a[1..], b, key);
    }
  }

  /** A successful `Set` is a map update on the abstract view. */
  lemma SetUpdatesView<V>(hooks: Hooks<V>, db: seq<StoredItem<V>>, key: EnumKey, value: V)
    requires Unique(db)
    requires key.typeName in hooks.authorized
    ensures View(Set(hooks, db, key, value).value) == View(db)[key := value]
  {
    var r := Set(hooks, db, key, value).value;
    SetKeepsOthers(hooks, db, key, value);
    ViewOfOthers(r, key);
    ViewOfOthers(db, key);
    assert View(r) - {key} == View(db) - {key};
    assert key in View(r) && View(r)[key] == value by {
      var kept := Kept(db, key);
      KeptHasNoMatch(db, key);
      SearchPastNoMatch(kept, [StoredItem(key.typeName, key.value, value)], key);
      SearchAgreesWithView(r, key);
    }
    assert View(r) == (View(r) - {key})[key := value];
  }

  /** `Set(key, v1)` then `Set(key, v2)` leaves exactly one item for `key`,
      holding `v2`, and every other item as it was. */
  lemma SetTwice<V>(hooks: Hooks<V>, db: seq<StoredItem<V>>, key: EnumKey, v1: V, v2: V)
    requires Unique(db)
    requires key.typeName in hooks.authorized
    ensures var r := Set(hooks, Set(hooks, db, key, v1).value, key, v2).value;
      && Matching(r, key) == [StoredItem(key.typeName, key.value, v2)]
      && Others(r, key) == Others(db, key)
  {
    var r1 := Set(hooks, db, key, v1).value;
    UniqueAtMostOne(db, key);
    SetKeepsOthers(hooks, db, key, v1);
    SetKeepsOthers(hooks, r1, key, v2);
  }
}
