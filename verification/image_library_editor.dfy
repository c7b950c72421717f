/** The list-maintenance rules of `ImageLibraryEditor`, the inspector of
    `ArchNet.Library.Image.ImageLibrary` (a class apart from
    `Library.ImageLibrary`): the persisted list of (sprite name, key)
    entries, the settings that govern it, and the edits one inspector pass
    makes to them.

    The serialized-property plumbing is gone: the inspected library is a
    `Settings` value, each handler is a function from the settings before to
    the settings after, and everything the inspector asks the inspected
    object or the user (a dialog answer, a widget's new value, whether the
    serialized object is dirty) arrives as a parameter. */
module ImageLibraryEditor {
  import opened Outcomes
  import Text

  /** The values of the serialized key-type field. */
  const NONE: int := 0
  const ENUM: int := 1
  const INT: int := 2

  /** One row of the persisted key/value list. */
  datatype Entry = Entry(spriteName: string, key: int)

  /** A reference to a sprite atlas; only its presence and identity matter. */
  datatype AtlasRef = AtlasRef(id: nat)

  /** The "Filter Content" settings. */
  datatype Filter = Filter(apply: bool, text: string, containOrReject: bool)

  /** The serialized fields of the inspected library that these rules read
      or write. */
  datatype Settings = Settings(
    atlas: Option<AtlasRef>,
    keyType: int,
    enumPath: string,
    filter: Filter,
    forceDefault: bool,
    defaultValue: int,
    entries: seq<Entry>)

  function Names(entries: seq<Entry>): seq<string> {
    seq(|entries|, i requires 0 <= i < |entries| => entries[i].spriteName)
  }

  // ---------------------------------------------------------------------
  // Rebinding the previous default key

  /** Every entry keyed with `previous` is re-keyed `current`; every other
      entry is kept as it is. */
  function Rebind(entries: seq<Entry>, previous: int, current: int): (r: seq<Entry>)
    ensures Names(r) == Names(entries)
    ensures forall i :: 0 <= i < |r| ==>
      r[i].key == (if entries[i].key == previous then current else entries[i].key)
  {
    if |entries| == 0 then []
    else
      var head := if entries[0].key == previous then Entry(entries[0].spriteName, current) else entries[0];
      var rest := Rebind(entries[1..], previous, current);
      NamesCons(head, rest, entries);
      [head] + rest
  }

  /** Prepending entries of the same name keeps two lists' names equal. */
  lemma NamesCons(head: Entry, rest: seq<Entry>, entries: seq<Entry>)
    requires |entries| > 0 && head.spriteName == entries[0].spriteName
    requires Names(rest) == Names(entries[1..])
    ensures Names([head] + rest) == Names(entries)
  {
    assert |rest| == |Names(rest)| == |entries| - 1;
    forall j | 0 <= j < |entries| ensures Names([head] + rest)[j] == Names(entries)[j] {
      if j > 0 {
        assert Names(rest)[j - 1] == Names(entries[1..])[j - 1];
      }
    }
  }

  /** `SetSpriteListDefaultValue`: one pass over the list, re-keying in
      place the entries that still carry the previous default. */
  method SetSpriteListDefaultValue(entries: seq<Entry>, lastDefault: int, defaultValue: int)
    returns (r: seq<Entry>)
    ensures r == Rebind(entries, lastDefault, defaultValue)
  {
    r := entries;
    var i := 0;
    while i < |r|
      invariant |r| == |entries|
      invariant 0 <= i <= |r|
      invariant forall j :: 0 <= j < i ==>
        r[j] == (if entries[j].key == lastDefault then Entry(entries[j].spriteName, defaultValue) else entries[j])
      invariant forall j :: i <= j < |r| ==> r[j] == entries[j]
    {
      if r[i].key == lastDefault {
        r := r[i := Entry(r[i].spriteName, defaultValue)];
      }
      i := i + 1;
    }
    assert Names(r) == Names(entries);
    SameNameSameKey(r, Rebind(entries, lastDefault, defaultValue));
  }

  /** Two entries with the same name and key are the same entry. */
  lemma SameNameSameKey(a: seq<Entry>, b: seq<Entry>)
    requires Names(a) == Names(b)
    requires forall j :: 0 <= j < |a| ==> a[j].key == b[j].key
    ensures a == b
  {
    assert |a| == |Names(a)| == |Names(b)| == |b|;
    forall j | 0 <= j < |a| ensures a[j] == b[j] {
      assert Names(a)[j] == a[j].spriteName;
      assert Names(b)[j] == b[j].spriteName;
    }
  }

  /** When the default did not change, rebinding changes nothing. */
  lemma RebindToSameKey(entries: seq<Entry>, key: int)
    ensures Rebind(entries, key, key) == entries
  {
    SameNameSameKey(Rebind(entries, key, key), entries);
  }

  /** After rebinding to a different key, no entry carries the previous key,
      and rebinding a second time has nothing left to do. */
  lemma RebindLeavesNoPrevious(entries: seq<Entry>, previous: int, current: int)
    requires previous != current
    ensures forall i :: 0 <= i < |entries| ==> Rebind(entries, previous, current)[i].key != previous
    ensures Rebind(Rebind(entries, previous, current), previous, current) == Rebind(entries, previous, current)
  {
    var once := Rebind(entries, previous, current);
    SameNameSameKey(Rebind(once, previous, current), once);
  }

  // ---------------------------------------------------------------------
  // Resetting every key

  /** Every entry is re-keyed `defaultValue`; names and order are kept. */
  function ResetKeys(entries: seq<Entry>, defaultValue: int): (r: seq<Entry>)
    ensures Names(r) == Names(entries)
    ensures forall i :: 0 <= i < |r| ==> r[i].key == defaultValue
  {
    if |entries| == 0 then []
    else
      var head := Entry(entries[0].spriteName, defaultValue);
      var rest := ResetKeys(entries[1..], defaultValue);
      NamesCons(head, rest, entries);
      [head] + rest
  }

  /** `ResetListKeysToDefaultValue`: one pass over the list writing the
      default into every key. */
  method ResetListKeysToDefaultValue(entries: seq<Entry>, defaultValue: int) returns (r: seq<Entry>)
    ensures r == ResetKeys(entries, defaultValue)
  {
    r := entries;
    var i := 0;
    while i < |r|
      invariant |r| == |entries|
      invariant 0 <= i <= |r|
      invariant forall j :: 0 <= j < i ==> r[j] == Entry(entries[j].spriteName, defaultValue)
      invariant forall j :: i <= j < |r| ==> r[j] == entries[j]
    {
      r := r[i := Entry(r[i].spriteName, defaultValue)];
      i := i + 1;
    }
    assert Names(r) == Names(entries);
    SameNameSameKey(r, ResetKeys(entries, defaultValue));
  }

  /** Rebinding a freshly reset list from the old default to a new one is
      the same as resetting to the new default. */
  lemma RebindAfterReset(entries: seq<Entry>, oldDefault: int, newDefault: int)
    ensures Rebind(ResetKeys(entries, oldDefault), oldDefault, newDefault) == ResetKeys(entries, newDefault)
  {
    SameNameSameKey(Rebind(ResetKeys(entries, oldDefault), oldDefault, newDefault), ResetKeys(entries, newDefault));
  }

  // ---------------------------------------------------------------------
  // The "Force Default Value" setting

  /** `HandleForceDefaultValueSettings`. `picked` is the value the default
      field or popup returns this pass. `dirty` is whether the serialized
      object has modified properties besides that default: writing a picked
      value that differs from the default always marks the object modified,
      so such an edit always rebinds and saves. `enumValues` is
      the enum names cached by the last `IsConditionsOK`. The boolean is
      whether the dictionary is saved. `lastDefault` is captured before any
      edit, so the rebinding always starts from the default the pass began
      with. */
  function HandleForceDefaultValueSettings(s: Settings, enumValues: Option<seq<string>>, picked: int, dirty: bool)
    : (r: (Settings, bool))
    ensures r.0 == s.(defaultValue := r.0.defaultValue, entries := r.0.entries)
    ensures !s.forceDefault && dirty ==>
      && r.0.defaultValue == 0
      && r.0.entries == Rebind(s.entries, s.defaultValue, 0)
      && (r.1 <==> |s.entries| > 0)
    ensures !s.forceDefault && !dirty ==> r == (s, false)
    ensures s.forceDefault && DefaultEditable(s, enumValues) ==>
      && r.0.defaultValue == picked
      && r.0.entries == Rebind(s.entries, s.defaultValue, picked)
      && (r.1 <==> dirty || picked != s.defaultValue)
    ensures s.forceDefault && !DefaultEditable(s, enumValues) ==> r == (s, false)
  {
    var lastDefault := s.defaultValue;
    if s.forceDefault then
      if DefaultEditable(s, enumValues) then
        var edited := s.(defaultValue := picked);
        if dirty || picked != lastDefault then (edited.(entries := Rebind(s.entries, lastDefault, picked)), true)
        else
          RebindToSameKey(s.entries, lastDefault);
          (edited, false)
      else
        (s, false)
    else if dirty then
      var zeroed := s.(defaultValue := 0);
      if |s.entries| > 0 then (zeroed.(entries := Rebind(s.entries, lastDefault, 0)), true)
      else (zeroed, false)
    else
      (s, false)
  }

  /** With "Force Default Value" on, the default can be edited for an
      integer key, and for an enum key once enum names are known. */
  predicate DefaultEditable(s: Settings, enumValues: Option<seq<string>>) {
    s.keyType == INT || (s.keyType == ENUM && enumValues.Some? && enumValues.value != [])
  }

  /** Turning "Force Default Value" off re-keys the entries that carried the
      previous default to 0 and touches no other entry or name. */
  lemma ForceDefaultOff(s: Settings, enumValues: Option<seq<string>>, picked: int)
    requires !s.forceDefault
    ensures var r := HandleForceDefaultValueSettings(s, enumValues, picked, true).0;
      && r.defaultValue == 0
      && Names(r.entries) == Names(s.entries)
      && forall i :: 0 <= i < |s.entries| ==>
           r.entries[i].key == (if s.entries[i].key == s.defaultValue then 0 else s.entries[i].key)
  {
  }

  /** With the setting on and the default editable, every entry keyed with
      the previous default ends keyed with the new default, and no other
      entry or name changes. */
  lemma ForceDefaultOnFollowsEdit(s: Settings, enumValues: Option<seq<string>>, picked: int, dirty: bool)
    requires s.forceDefault && DefaultEditable(s, enumValues)
    ensures var r := HandleForceDefaultValueSettings(s, enumValues, picked, dirty).0;
      && r.defaultValue == picked
      && Names(r.entries) == Names(s.entries)
      && forall i :: 0 <= i < |s.entries| ==>
           r.entries[i].key == (if s.entries[i].key == s.defaultValue then picked else s.entries[i].key)
  {
  }

  /** If the previous default already was 0, turning the setting off leaves
      the list exactly as it was. */
  lemma ForceDefaultOffFromZero(s: Settings, enumValues: Option<seq<string>>, picked: int)
    requires !s.forceDefault && s.defaultValue == 0
    ensures HandleForceDefaultValueSettings(s, enumValues, picked, true).0 == s
  {
    RebindToSameKey(s.entries, 0);
  }

  // ---------------------------------------------------------------------
  // The filter

  /** An entry is hidden when filtering is on and whether its lower-cased
      name contains the lower-cased filter text equals `containOrReject`. */
  predicate Hidden(f: Filter, spriteName: string): (hidden: bool)
    ensures !f.apply ==> !hidden
    ensures f.apply ==>
      (hidden <==> (f.containOrReject <==> Text.Occurs(Text.ToLower(spriteName), Text.ToLower(f.text))))
  {
    f.apply && f.containOrReject == Text.Contains(Text.ToLower(spriteName), Text.ToLower(f.text))
  }

  /** `HandleDatasDisplay`: one pass over the list that skips the rows the
      filter hides, draws the others (`rows`, their indices in list order)
      and writes into each drawn row's key what its key widget returns. */
  method HandleDatasDisplay(entries: seq<Entry>, f: Filter, keyType: int, edits: seq<Option<int>>)
    returns (rows: seq<nat>, r: seq<Entry>)
    ensures forall k :: 0 <= k < |rows| ==> rows[k] < |entries| && !Hidden(f, entries[rows[k]].spriteName)
    ensures forall i :: 0 <= i < |entries| && !Hidden(f, entries[i].spriteName) ==> i in rows
    ensures forall a, b :: 0 <= a < b < |rows| ==> rows[a] < rows[b]
    ensures r == ApplyRowEdits(entries, f, keyType, edits)
  {
    rows := [];
    r := entries;
    var i := 0;
    while i < |entries|
      invariant 0 <= i <= |entries|
      invariant |r| == |entries|
      invariant forall k :: 0 <= k < |rows| ==> rows[k] < i && !Hidden(f, entries[rows[k]].spriteName)
      invariant forall j :: 0 <= j < i && !Hidden(f, entries[j].spriteName) ==> j in rows
      invariant forall a, b :: 0 <= a < b < |rows| ==> rows[a] < rows[b]
      invariant forall j :: 0 <= j < i ==>
        r[j] == (if RowEdited(entries, f, keyType, edits, j) then Entry(entries[j].spriteName, edits[j].value) else entries[j])
      invariant forall j :: i <= j < |r| ==> r[j] == entries[j]
    {
      if Hidden(f, entries[i].spriteName) {
        i := i + 1;
        continue;
      }
      rows := rows + [i];
      if (keyType == ENUM || keyType == INT) && i < |edits| && edits[i].Some? {
        r := r[i := Entry(r[i].spriteName, edits[i].value)];
      }
      i := i + 1;
    }
    assert Names(r) == Names(entries);
    SameNameSameKey(r, ApplyRowEdits(entries, f, keyType, edits));
  }

  /** With filtering off every entry is drawn. */
  lemma FilterOffShowsAll(f: Filter, spriteName: string)
    requires !f.apply
    ensures !Hidden(f, spriteName)
  {
  }

  /** With filtering on, "contain" and "reject" split the list between them:
      each entry is drawn in exactly one of the two modes. */
  lemma ContainAndRejectAreComplementary(text: string, spriteName: string)
    ensures Hidden(Filter(true, text, true), spriteName) != Hidden(Filter(true, text, false), spriteName)
  {
  }

  /** An empty filter text occurs in every name: one mode hides everything,
      the other nothing. */
  lemma EmptyFilterText(containOrReject: bool, spriteName: string)
    ensures Hidden(Filter(true, [], containOrReject), spriteName) == containOrReject
  {
    Text.ContainsEmpty(Text.ToLower(spriteName));
  }

  /** Filtering ignores ASCII case on both sides. */
  lemma FilterIgnoresCase(f: Filter, spriteName: string)
    ensures Hidden(f, spriteName) == Hidden(f.(text := Text.ToLower(f.text)), Text.ToLower(spriteName))
  {
    Text.ToLowerIdempotent(spriteName);
    Text.ToLowerIdempotent(f.text);
  }

  // ---------------------------------------------------------------------
  // The parameter gate

  /** The result of `IsConditionsOK` and the enum names it leaves cached. */
  datatype Conditions = Conditions(ok: bool, enumValues: Option<seq<string>>)

  /** `IsConditionsOK`. `resolved` is what the manager's enum lookup returns
      for the current enum path (null as `None`); it is consulted, and
      cached, only for an enum key type with a non-empty path. */
  function IsConditionsOK(s: Settings, cached: Option<seq<string>>, resolved: Option<seq<string>>)
    : (c: Conditions)
    ensures c.ok <==>
      && s.atlas.Some?
      && s.keyType != NONE
      && (s.keyType == ENUM ==> s.enumPath != [] && resolved.Some?)
    ensures c.enumValues ==
      (if s.atlas.Some? && s.keyType == ENUM && s.enumPath != [] then resolved else cached)
  {
    if s.atlas.None? then Conditions(false, cached)
    else if s.keyType == NONE then Conditions(false, cached)
    else if s.keyType == ENUM then
      if s.enumPath == [] then Conditions(false, cached)
      else if resolved.None? then Conditions(false, resolved)
      else Conditions(true, resolved)
    else Conditions(true, cached)
  }

  /** Row `i` of the list gets a new key this pass: its row is drawn (the
      filter does not hide it), the key type has a key widget (an ENUM popup
      or an INT field), and the user changed that widget (`edits[i]`, with
      `None` for a widget left alone or a row past the end of `edits`). */
  predicate RowEdited(entries: seq<Entry>, f: Filter, keyType: int, edits: seq<Option<int>>, i: int)
    requires 0 <= i < |entries|
  {
    && i < |edits|
    && edits[i].Some?
    && (keyType == ENUM || keyType == INT)
    && !Hidden(f, entries[i].spriteName)
  }

  /** The key widgets `HandleDatasDisplay` draws next to each shown row:
      every edited row takes the key its widget returns; hidden rows, rows
      left alone and every row of a NONE key type keep their key. No name
      changes and no row moves. */
  function ApplyRowEdits(entries: seq<Entry>, f: Filter, keyType: int, edits: seq<Option<int>>): (r: seq<Entry>)
    ensures Names(r) == Names(entries)
    ensures forall i :: 0 <= i < |r| ==>
      r[i].key == (if RowEdited(entries, f, keyType, edits, i) then edits[i].value else entries[i].key)
    decreases |entries|
  {
    if |entries| == 0 then []
    else
      var head :=
        if RowEdited(entries, f, keyType, edits, 0) then Entry(entries[0].spriteName, edits[0].value)
        else entries[0];
      var rest := ApplyRowEdits(entries[1..], f, keyType, if |edits| > 0 then edits[1..] else []);
      NamesCons(head, rest, entries);
      assert forall i :: 1 <= i < |entries| ==>
        RowEdited(entries, f, keyType, edits, i)
        == RowEdited(entries[1..], f, keyType, if |edits| > 0 then edits[1..] else [], i - 1);
      [head] + rest
  }

  /** A pass in which the user touches no key widget leaves the list as it
      was. */
  lemma NoRowEditsKeepList(entries: seq<Entry>, f: Filter, keyType: int, edits: seq<Option<int>>)
    requires forall i :: 0 <= i < |edits| ==> edits[i].None?
    ensures ApplyRowEdits(entries, f, keyType, edits) == entries
  {
    SameNameSameKey(ApplyRowEdits(entries, f, keyType, edits), entries);
  }

  /** `HandleImageLibraryDisplay`. When the parameters are missing, the
      list is cleared and nothing is saved. Otherwise the rows are drawn,
      the user's key edits land in the list, and `SaveSpriteListIfNecessary`
      saves when the serialized object is modified: by those edits or by a
      change still pending from earlier in the pass (`pending`). The
      boolean is whether the dictionary is saved. */
  function HandleImageLibraryDisplay(s: Settings, cached: Option<seq<string>>, resolved: Option<seq<string>>,
                                     edits: seq<Option<int>>, pending: bool)
    : (r: (Settings, Option<seq<string>>, bool))
    ensures r.0 == s.(entries := r.0.entries)
    ensures Names(r.0.entries) == Names(s.entries) || r.0.entries == []
    ensures IsConditionsOK(s, cached, resolved).ok ==>
      && r.0.entries == ApplyRowEdits(s.entries, s.filter, s.keyType, edits)
      && (r.2 <==> pending || r.0.entries != s.entries)
    ensures !IsConditionsOK(s, cached, resolved).ok ==> r.0.entries == [] && !r.2
    ensures r.1 == IsConditionsOK(s, cached, resolved).enumValues
  {
    var c := IsConditionsOK(s, cached, resolved);
    if c.ok then
      var edited := ApplyRowEdits(s.entries, s.filter, s.keyType, edits);
      (s.(entries := edited), c.enumValues, pending || edited != s.entries)
    else if |s.entries| > 0 then (s.(entries := []), c.enumValues, false)
    else (s, c.enumValues, false)
  }

  // ---------------------------------------------------------------------
  // Changing the key type or the atlas

  /** `DoKeyTypeChanged`: a key type was already in force and the edited
      field no longer agrees with it. */
  predicate KeyTypeChanged(actualKeyType: int, keyTypeUpToDate: bool)
    ensures keyTypeUpToDate || actualKeyType <= NONE ==> !KeyTypeChanged(actualKeyType, keyTypeUpToDate)
    ensures !keyTypeUpToDate && actualKeyType > NONE ==> KeyTypeChanged(actualKeyType, keyTypeUpToDate)
  {
    actualKeyType > 0 && !keyTypeUpToDate
  }

  /** `HandleKeyTypeField`: a confirmed change resets every key to the
      default; a declined one rolls the field back to the key type in force. */
  function HandleKeyTypeField(s: Settings, actualKeyType: int, keyTypeUpToDate: bool, confirmed: bool)
    : (r: Settings)
    ensures Names(r.entries) == Names(s.entries)
    ensures KeyTypeChanged(actualKeyType, keyTypeUpToDate) && confirmed ==>
      && r.keyType == s.keyType
      && forall i :: 0 <= i < |r.entries| ==> r.entries[i].key == s.defaultValue
    ensures KeyTypeChanged(actualKeyType, keyTypeUpToDate) && !confirmed ==>
      r == s.(keyType := actualKeyType)
    ensures !KeyTypeChanged(actualKeyType, keyTypeUpToDate) ==> r == s
    ensures r == s.(keyType := r.keyType, entries := r.entries)
  {
    if KeyTypeChanged(actualKeyType, keyTypeUpToDate) then
      if confirmed then s.(entries := ResetKeys(s.entries, s.defaultValue))
      else s.(keyType := actualKeyType)
    else s
  }

  /** `DoAtlasSpriteChanged`: an atlas was already in force and the edited
      field no longer agrees with it. */
  predicate AtlasChanged(actualAtlas: Option<AtlasRef>, atlasUpToDate: bool)
    ensures atlasUpToDate || actualAtlas == None ==> !AtlasChanged(actualAtlas, atlasUpToDate)
    ensures !atlasUpToDate && actualAtlas != None ==> AtlasChanged(actualAtlas, atlasUpToDate)
  {
    actualAtlas.Some? && !atlasUpToDate
  }

  /** `HandleAtlasField`: a confirmed change clears the list; a declined one
      rolls the field back to the atlas in force. */
  function HandleAtlasField(s: Settings, actualAtlas: Option<AtlasRef>, atlasUpToDate: bool, confirmed: bool)
    : (r: Settings)
    ensures AtlasChanged(actualAtlas, atlasUpToDate) && confirmed ==> r == s.(entries := [])
    ensures AtlasChanged(actualAtlas, atlasUpToDate) && !confirmed ==> r == s.(atlas := actualAtlas)
    ensures !AtlasChanged(actualAtlas, atlasUpToDate) ==> r == s
  {
    if AtlasChanged(actualAtlas, atlasUpToDate) then
      if confirmed then s.(entries := [])
      else s.(atlas := actualAtlas)
    else s
  }

  // ---------------------------------------------------------------------
  // One inspector pass

  /** What one pass learns from the manager and the user. */
  datatype Frame = Frame(
    actualAtlas: Option<AtlasRef>,
    atlasUpToDate: bool,
    clearConfirmed: bool,
    actualKeyType: int,
    keyTypeUpToDate: bool,
    resetConfirmed: bool,
    settingsExpanded: bool,
    pickedDefault: int,
    dirty: bool,
    resolvedEnumValues: Option<seq<string>>,
    rowEdits: seq<Option<int>>,
    pending: bool)

  /** `OnInspectorGUI` after the library is brought up to date: the atlas
      field, the key-type field, the settings (when expanded) and the
      display, in that order. `s` holds the serialized fields as this
      pass's widgets left them: the atlas and key-type fields, the enum path
      and force-default toggle of the settings, and the filter fields are
      already edited; only what the rules below decide is computed here.
      The enum-path field itself decides nothing beyond applying pending
      edits, which `f.dirty` and `f.pending` stand for. The enum names
      cached by the previous pass are the ones the settings see. The
      boolean is whether the dictionary is saved during the pass. */
  function InspectorPass(s: Settings, cached: Option<seq<string>>, f: Frame)
    : (r: (Settings, Option<seq<string>>, bool))
    ensures Names(r.0.entries) == Names(s.entries) || r.0.entries == []
    ensures !IsConditionsOK(r.0, cached, f.resolvedEnumValues).ok ==> r.0.entries == []
    ensures r.2 ==> f.settingsExpanded || IsConditionsOK(r.0, cached, f.resolvedEnumValues).ok
  {
    var afterAtlas := HandleAtlasField(s, f.actualAtlas, f.atlasUpToDate, f.clearConfirmed);
    var afterKeyType := HandleKeyTypeField(afterAtlas, f.actualKeyType, f.keyTypeUpToDate, f.resetConfirmed);
    var (afterSettings, settingsSaved) :=
      if f.settingsExpanded
      then HandleForceDefaultValueSettings(afterKeyType, cached, f.pickedDefault, f.dirty)
      else (afterKeyType, false);
    var (displayed, enumValues, displaySaved) :=
      HandleImageLibraryDisplay(afterSettings, cached, f.resolvedEnumValues, f.rowEdits, f.pending);
    (displayed, enumValues, settingsSaved || displaySaved)
  }
}
