/** `ImageLibrary`, the concrete library of sprites: it accepts keys of the
    `Illustration` enum only and answers null for a key it does not hold.

    A sprite is an opaque reference: the model is generic over its type `S`
    and writes a nullable sprite as `Option<S>`, with `None` for null. */
module ImageLibrary {
  import opened Outcomes
  import opened Library

  /** Placeholder full name for the one authorized enum type,
      `Illustration`. Its namespace is not fixed by the files modelled here,
      and no property depends on the string: only on its being the single
      member of the allow-list. */
  const IllustrationType: string := "Flow.Scripts.Element_Service.Enums.Illustration"

  /** `AuthorizedEnums()` and `DefaultValue()` of the image library. The
      allow-list is a constant: it is rebuilt identically on every call and
      does not look at the database. */
  function ImageHooks<S>(): (h: Hooks<Option<S>>)
    ensures |h.authorized| == 1 && IllustrationType in h.authorized
    ensures h.defaultValue == None
  {
    Hooks({IllustrationType}, None)
  }

  function ImageGet<S>(db: seq<StoredItem<Option<S>>>, key: EnumKey): (r: Option<S>)
    ensures key !in View(db) ==> r == None
    ensures key in View(db) ==> r == View(db)[key]
  {
    Get(ImageHooks(), db, key)
  }

  function ImageSet<S>(db: seq<StoredItem<Option<S>>>, key: EnumKey, sprite: Option<S>)
    : (r: Result<seq<StoredItem<Option<S>>>, SetError>)
    ensures r.Failure? <==> key.typeName != IllustrationType
    ensures r.Success? && Unique(db) ==> View(r.value) == View(db)[key := sprite]
  {
    SetUpdatesViewWhenUnique(db, key, sprite);
    Set(ImageHooks(), db, key, sprite)
  }

  lemma SetUpdatesViewWhenUnique<S>(db: seq<StoredItem<Option<S>>>, key: EnumKey, sprite: Option<S>)
    ensures var r := Set(ImageHooks(), db, key, sprite);
      r.Success? && Unique(db) ==> View(r.value) == View(db)[key := sprite]
  {
    if key.typeName in ImageHooks<S>().authorized && Unique(db) {
      SetUpdatesView(ImageHooks(), db, key, sprite);
    }
  }

  /** Any other enum type is rejected, whatever the database holds. */
  lemma OnlyIllustrationAccepted<S>(db: seq<StoredItem<Option<S>>>, key: EnumKey, sprite: Option<S>)
    requires key.typeName != IllustrationType
    ensures ImageSet(db, key, sprite) == Failure(ArgumentOutOfRange(key.typeName))
  {
  }

  /** An `Illustration` key never stored reads as null. */
  lemma UnstoredIllustrationIsNull<S>(db: seq<StoredItem<Option<S>>>, value: int)
    requires forall j :: 0 <= j < |db| ==> !db[j].Matches(IllustrationType, value)
    ensures ImageGet(db, EnumKey(IllustrationType, value)) == None
  {
    SearchAgreesWithView(db, EnumKey(IllustrationType, value));
  }

  /** The allow-list is the same fixed set on every call, so whether a write
      is accepted depends on the key's type alone, never on what the
      database holds or on the value written. */
  lemma AcceptanceIgnoresContents<S>(db1: seq<StoredItem<Option<S>>>, db2: seq<StoredItem<Option<S>>>,
                                     key: EnumKey, v1: Option<S>, v2: Option<S>)
    ensures ImageSet(db1, key, v1).Success? == ImageSet(db2, key, v2).Success?
  {
  }
}
