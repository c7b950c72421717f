# Image library: enum-keyed store and inspector list rules

This project models, in Dafny, two sequential pieces of an image library for
Unity. The two are independent: the second edits a different class that
shares the first's name.

The first is the generic store `Library<TValue>` and its instance
`Library.ImageLibrary`. The store is a list of items. Each item is keyed by the
full name of an enum type and an integer value. `Get` returns the first matching
value, or the library's default when nothing matches. `Set` rejects an enum
type outside the allow-list with `ArgumentOutOfRangeException`. Otherwise it
removes the matching item and appends the new one. The store is a
`seq<StoredItem<V>>` (module `Library`). The ghost predicate `Unique` says at
most one item exists per key. The ghost function `View` is the map a lookup
sees, where the first match wins. `Get` and `Set` are specified against
`View`. The allow-list and the default value are a `Hooks` record.
`ImageLibrary` fixes that record to `{Illustration}` and null. A sprite is
opaque, so a nullable sprite is written `Option<S>`.

The second is `ImageLibraryEditor`, the custom inspector of a separate class,
`ArchNet.Library.Image.ImageLibrary` (ImageLibraryEditor.cs:9-11). That class
is not `Library.ImageLibrary` and is not part of this model. The inspector
maintains that class's own persisted list of (sprite name, key) entries. The
list is not `Library.database`, and the inspector never calls `Library.Get` or
`Library.Set`. The rules it applies to the list are:
- rebinding the keys that carry the previous default;
- resetting every key when the key type changes;
- the "Force Default Value" toggle;
- the contain/reject filter;
- the per-row key edits of the drawn rows, and the save after them;
- the `IsConditionsOK` gate, with clearing of the list when parameters are missing;
- the atlas-change and key-type-change confirmations.

Each handler is a pure function over a `Settings` record. The three loops
over the list are also methods, each proved equal to its functional
definition: `SetSpriteListDefaultValue` computes `Rebind`,
`ResetListKeysToDefaultValue` computes `ResetKeys`, and `HandleDatasDisplay`
computes the drawn rows and `ApplyRowEdits`. The answers the inspector gets from the user and from the
inspected `ArchNet.Library.Image.ImageLibrary` object are parameters. These include dialog results, widget
values, whether the serialized object is dirty, and the enum names that
object resolves. `Text` holds the ordinal `Contains` and an ASCII
`ToLower`, which the filter uses.

Files: `outcomes.dfy` (Option, Result), `library.dfy`, `image_library.dfy`,
`text.dfy`, `image_library_editor.dfy`.

## Model

| member | source | states |
|---|---|---|
| Library.StoredItem.Matches | Editor/Scripts/Library.cs:24 | An item matches a (full enum name, integer value) pair exactly when its key is that pair: both the enum name and the integer agree. |
| Library.Search | Editor/Scripts/Library.cs:59-63 | The position found holds an item that `Matches` (same enum name and same key). No earlier item matches. `None` (null) exactly when no item matches. |
| Library.SearchAgreesWithView | Editor/Scripts/Library.cs:59-63 | The search succeeds exactly for the keys of the abstract view. It finds the value the view assigns. |
| Library.Get | Editor/Scripts/Library.cs:32-37 | For a key in the view, `Get` returns the view's value, which is the first matching item's. For any other key it returns `DefaultValue()`. |
| Library.Set | Editor/Scripts/Library.cs:43-57 | Fails with `ArgumentOutOfRange` exactly when the enum type is not authorized. Failure produces no new database, so the old one stands. Success makes the database one item longer for a new key and keeps its size for a stored key; it never shrinks. The new item is last. |
| Library.RemoveAt | Editor/Scripts/Library.cs:52-53 | Removing one item shortens the list by one. Items before the position stay where they were; items after it move one place forward. |
| Library.Kept | Editor/Scripts/Library.cs:52-53 | The list `Set` keeps before appending loses one item exactly when the search finds one. The items for every other key are the same, in order. The items for the key lose their first one. |
| Library.RemoveFoundItem | Editor/Scripts/Library.cs:52-53 | Removing the item `Search` found drops the first item for the key. Every other item keeps its order. |
| Library.SetKeepsOthers | Editor/Scripts/Library.cs:52-56 | After `Set`, the items for every other key are the same and in the same order. The items for the key lose their first one and gain the new item at the end. |
| Library.SetPreservesUnique | Editor/Scripts/Library.cs:52-56 | From a database with at most one item per key, `Set` yields one with at most one item per key. |
| Library.SetThenGet | Editor/Scripts/Library.cs:43-57 | On a unique database, `Get(k)` after a successful `Set(k, v)` returns `v`. |
| Library.SetUpdatesView | Editor/Scripts/Library.cs:43-57 | On a unique database, a successful `Set(k, v)` turns the abstract view `m` into `m[k := v]`. |
| Library.SetTwice | Editor/Scripts/Library.cs:52-56 | On a unique database, `Set(k, v1)` then `Set(k, v2)` leaves exactly one item for `k`, holding `v2`. Every other item is as it was. |
| Library.UniqueAtMostOne | Editor/Scripts/Library.cs:52-56 | Under the uniqueness invariant, each key has at most one item. |
| ImageLibrary.ImageHooks | Editor/Scripts/ImageLibrary.cs:14-21 | The allow-list has exactly one member, `Illustration`. The default value is null. |
| ImageLibrary.ImageGet | Editor/Scripts/ImageLibrary.cs:14 | Reading a key the view lacks yields null. Any other key yields the view's value. |
| ImageLibrary.ImageSet | Editor/Scripts/ImageLibrary.cs:15-21 | Rejected exactly when the key's type is not `Illustration`. On a unique database, success is a map update of the view. |
| ImageLibrary.OnlyIllustrationAccepted | Editor/Scripts/ImageLibrary.cs:15-21 | Every other enum type is rejected with `ArgumentOutOfRange`, whatever the database holds. |
| ImageLibrary.AcceptanceIgnoresContents | Editor/Scripts/ImageLibrary.cs:15-21 | The allow-list is rebuilt identically on every call. So whether a write is accepted depends only on the key's type, never on the database contents or the value written. |
| ImageLibrary.UnstoredIllustrationIsNull | Editor/Scripts/ImageLibrary.cs:14 | An `Illustration` key with no stored item reads as null. |
| Text.Contains | Editor/Scripts/Editor/ImageLibraryEditor.cs:128 | True exactly when the needle occurs at some position of the string. |
| Text.ToLower | Editor/Scripts/Editor/ImageLibraryEditor.cs:128 | Lower-cases ASCII capitals position by position. Keeps the length and every other character. |
| ImageLibraryEditor.Rebind | Editor/Scripts/Editor/ImageLibraryEditor.cs:257-273 | Entries keyed with the previous default get the new default. All other keys, all names, the order and the length are unchanged. |
| ImageLibraryEditor.SetSpriteListDefaultValue | Editor/Scripts/Editor/ImageLibraryEditor.cs:257-273 | The in-place loop over the list computes exactly `Rebind`. |
| ImageLibraryEditor.RebindToSameKey | Editor/Scripts/Editor/ImageLibraryEditor.cs:267-270 | When the previous default equals the new one, rebinding changes nothing. |
| ImageLibraryEditor.RebindLeavesNoPrevious | Editor/Scripts/Editor/ImageLibraryEditor.cs:267-270 | After rebinding to a different key, no entry carries the previous default. A second rebinding is a no-op. |
| ImageLibraryEditor.ResetKeys | Editor/Scripts/Editor/ImageLibraryEditor.cs:356-367 | Every key equals the default. Names, order and length are kept. |
| ImageLibraryEditor.ResetListKeysToDefaultValue | Editor/Scripts/Editor/ImageLibraryEditor.cs:356-367 | The in-place loop over the list computes exactly `ResetKeys`. |
| ImageLibraryEditor.RebindAfterReset | Editor/Scripts/Editor/ImageLibraryEditor.cs:257-273 | Rebinding a freshly reset list from the old default to a new one equals resetting it to the new default. |
| ImageLibraryEditor.HandleForceDefaultValueSettings | Editor/Scripts/Editor/ImageLibraryEditor.cs:208-255 | Only the default and the list can change. Turning the setting off on a dirty pass sets the default to 0 and rebinds from the previous default; it saves only for a non-empty list. With the setting on and the default editable (an integer key, or an enum key with known names), the default becomes the picked value. The list is rebound from the previous default to the picked one. It is saved when the pass is dirty or the picked value differs from the previous default, since writing a different value marks the object modified. Otherwise nothing changes. |
| ImageLibraryEditor.ForceDefaultOnFollowsEdit | Editor/Scripts/Editor/ImageLibraryEditor.cs:213-243 | With the setting on and the default editable, the default becomes the picked value. Every entry that carried the previous default carries the picked one; all other keys and all names are unchanged. |
| ImageLibraryEditor.ForceDefaultOff | Editor/Scripts/Editor/ImageLibraryEditor.cs:245-254 | Turning "Force Default Value" off makes the default 0. Entries keyed with the previous default get key 0; all other entries and all names are unchanged. |
| ImageLibraryEditor.ForceDefaultOffFromZero | Editor/Scripts/Editor/ImageLibraryEditor.cs:245-254 | If the previous default was already 0, turning the setting off leaves the settings unchanged. |
| ImageLibraryEditor.Hidden | Editor/Scripts/Editor/ImageLibraryEditor.cs:126-132 | With filtering off nothing is hidden. With filtering on, an entry is hidden exactly when "the lower-cased filter text occurs in the lower-cased name" has the value `containOrReject`. |
| ImageLibraryEditor.HandleDatasDisplay | Editor/Scripts/Editor/ImageLibraryEditor.cs:119-166 | The loop draws exactly the entries the filter does not hide, in increasing index order. The list it leaves is exactly `ApplyRowEdits` of the list it was given. |
| ImageLibraryEditor.FilterOffShowsAll | Editor/Scripts/Editor/ImageLibraryEditor.cs:126-132 | With filtering off, no entry is hidden. |
| ImageLibraryEditor.ContainAndRejectAreComplementary | Editor/Scripts/Editor/ImageLibraryEditor.cs:128 | With filtering on, each entry is hidden in exactly one of the two `containOrReject` modes. |
| ImageLibraryEditor.EmptyFilterText | Editor/Scripts/Editor/ImageLibraryEditor.cs:128 | An empty filter text hides every entry when `containOrReject` is true and none when it is false. |
| ImageLibraryEditor.FilterIgnoresCase | Editor/Scripts/Editor/ImageLibraryEditor.cs:128 | Lower-casing the name or the filter text beforehand does not change which entries are hidden. |
| ImageLibraryEditor.IsConditionsOK | Editor/Scripts/Editor/ImageLibraryEditor.cs:169-195 | OK exactly when an atlas is set, the key type is not NONE (0), and, for an ENUM (1) key, the path is non-empty and the enum names resolved. The enum names are looked up and cached only for an ENUM key with an atlas and a non-empty path. |
| ImageLibraryEditor.ApplyRowEdits | Editor/Scripts/Editor/ImageLibraryEditor.cs:119-163 | A shown row of an ENUM or INT list whose key widget the user changed takes the new key. Hidden rows, untouched rows and every row of a NONE key type keep their key. Names, order and length are kept. |
| ImageLibraryEditor.NoRowEditsKeepList | Editor/Scripts/Editor/ImageLibraryEditor.cs:147-163 | When the user touches no key widget, the list is unchanged. |
| ImageLibraryEditor.HandleImageLibraryDisplay | Editor/Scripts/Editor/ImageLibraryEditor.cs:84-110 | When the conditions fail, the list is emptied and nothing is saved. Otherwise the user's row edits are applied. The dictionary is saved exactly when those edits changed the list or other changes are pending. No other setting changes. Either way names are kept or the list is empty. |
| ImageLibraryEditor.KeyTypeChanged | Editor/Scripts/Editor/ImageLibraryEditor.cs:425-433 | No change is reported while the field is up to date or no key type (NONE or below) is in force. A change is reported whenever a key type above NONE is in force and the field disagrees with it. |
| ImageLibraryEditor.HandleKeyTypeField | Editor/Scripts/Editor/ImageLibraryEditor.cs:336-354 | A confirmed key-type change keeps the edited key type and sets every key to the default, keeping the names. A declined change rolls the key type back. No change leaves everything as it was. |
| ImageLibraryEditor.AtlasChanged | Editor/Scripts/Editor/ImageLibraryEditor.cs:415-423 | A change is reported exactly when an atlas is in force and the edited field disagrees with it. |
| ImageLibraryEditor.HandleAtlasField | Editor/Scripts/Editor/ImageLibraryEditor.cs:369-388 | A confirmed atlas change clears the list. A declined change rolls the atlas back. No change leaves everything as it was. |
| ImageLibraryEditor.InspectorPass | Editor/Scripts/Editor/ImageLibraryEditor.cs:52-80 | The settings given are the serialized fields as this pass's widgets left them. One inspector pass either keeps the list's sprite names exactly, in order, or empties the list. The list is empty whenever the pass ends with the conditions failing. A save is reported only when the settings were expanded or the conditions hold at the end of the pass. |

## Left out

- The reconciliation and lookup engine of `ArchNet.Library.Image.ImageLibrary`, the class the inspector edits, is not part of this model. This covers `IsLibraryUpToDate`, `UpdateLibrary`, `SaveDictionnary`, `GetEnumValues`, `GetSpriteTextureByIndexInEditMode`, `IsAtlasUpToDate`, `isKeyTypeUpToDate` and `GetActual*`. Their answers are parameters (`resolved`, `atlasUpToDate`, `actualKeyType`, ...). A save is reported as a boolean. `InspectorPass` starts after the up-to-date check.
- Unity editor rendering is left out: layout and label calls, GUI styles, the image preview and its size slider, and the show-images and filter-toggle widgets. The `DisplayDialog` answer is a boolean parameter. `hasModifiedProperties` is the boolean `dirty`.
- `SerializedProperty` and `ApplyModifiedProperties` bookkeeping is left out. The serialized fields are the `Settings` record.
- The value a row's key widget returns is user input, given as `edits`. The popup's labels and the range of the enum names are not checked.
- The widgets themselves are not modelled: the atlas field, the key-type field, the enum-path field (`HandleEnumPathField`, ImageLibraryEditor.cs:320-334), the force-default toggle and the filter fields. `InspectorPass` receives the settings as those widgets left them. The enum-path field only applies pending modifications, which the booleans `dirty` and `pending` stand for.
- Changes still pending when the display saves are the boolean `pending`. Which earlier widget left them is not modelled.
- `AuthorizedEnums()` is a virtual method in the generic library. The model makes it a fixed field of `Hooks`, so each instance's allow-list cannot change. That holds for `ImageLibrary`, whose set is a constant.
- Reflection and runtime typing are left out. A key is `EnumKey(typeName, value)`, standing for `key.GetType().FullName` and `Convert.ToInt32(key)`. Membership in `AuthorizedEnums()` compares full names, not `Type` objects.
- `ImageLibrary.IllustrationType` is a placeholder full name for the `Illustration` enum. Its real namespace is not fixed by the files modelled here, and no property depends on the string, only on its being the single authorized type. The `Illustration` enum itself is not part of this model.
- Library.Set: `Convert.ToInt32(key)` is assumed to succeed, so a key's value is an unbounded `int`. The `OverflowException` it raises for an enum value outside 32 bits is not modelled. That conversion runs before the allow-list check in `Set` and inside `Search` for `Get`. So "fails exactly when the type is not authorized" holds only for keys that convert.
- `List.Remove` compares by reference. It is modelled as removal at the position `Search` found, which holds the same object.
- Culture-sensitive `ToLower()` is modelled for ASCII letters only. `Contains` is ordinal.
- A null `string` is modelled as the empty string, so `string.IsNullOrEmpty` becomes `== []`.
- The key type is the serialized integer, with NONE = 0, ENUM = 1 and INT = 2, as the source compares it.
- Sprites and atlases are opaque. The store is generic over its value type; an atlas is an `AtlasRef` identity.
- The inspector UIs `LibraryEditorInterface` and `ImageLibraryEditorInterface` are not part of this model. `ImageLibraryEditorInterface` is the inspector of `Library.ImageLibrary`.
- Library.Get: returns only the stored or default value; there is no found flag (Library.cs:32-37).
- Library.SetThenGet: requires the uniqueness invariant. Without it, `Set` removes only the first of several items for a key, and `Get` may still see an older one.
