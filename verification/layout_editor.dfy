/**
 * The settings dialog's edits of the layout list store: toggling the
 * default row, removing, adding and editing a row from the layout picker,
 * counting groups and deciding which buttons are sensitive. Each
 * operation returns the new sequence of rows.
 */
module LayoutEditor {
  import opened Nullable
  import opened GStrings
  import opened LayoutRows
  import LayoutCodec

  /** The row the layout picker selected on OK: a layout (tree depth 1) or one of its variants (depth 2). */
  datatype PickedItem = PickedLayout(id: string) | PickedVariant(layoutId: string, variantId: string)

  /**
   * `xkb_settings_layout_dialog_run`'s result string: "layout," for a
   * layout, "layout,variant" for a variant, NULL when nothing was picked.
   */
  function PickerResult(picked: Option<PickedItem>): (r: Option<string>)
    ensures r.Some? <==> picked.Some?
    ensures r.Some? ==> ',' in r.value
  {
    match picked
    case None => None
    case Some(PickedLayout(id)) => Some(id + ",")
    case Some(PickedVariant(layoutId, variantId)) => Some(layoutId + "," + variantId)
  }

  /** With comma-free ids the picker string splits into exactly the layout id and the variant id, "" for none. */
  lemma PickerSplit(picked: PickedItem)
    requires picked.PickedLayout? ==> ',' !in picked.id
    requires picked.PickedVariant? ==> ',' !in picked.layoutId && ',' !in picked.variantId
    ensures Split(PickerResult(Some(picked)).value) ==
      match picked
      case PickedLayout(id) => [id, ""]
      case PickedVariant(layoutId, variantId) => [layoutId, variantId]
  {
    match picked
    case PickedLayout(id) =>
      SplitJoin([id, ""]);
      assert [id, ""][1..] == [""];
      assert Join([id, ""]) == id + "," + "" == id + ",";
    case PickedVariant(layoutId, variantId) =>
      SplitJoin([layoutId, variantId]);
      assert [layoutId, variantId][1..] == [variantId];
      assert Join([layoutId, variantId]) == layoutId + "," + variantId;
  }

  /**
   * The ids a picker string puts on a row: element 0 of its split as the
   * layout, element 1 (the NULL terminator when there is none) as the
   * variant. An empty string would make element 1 lie past the vector.
   */
  function ChoiceRow(isDefault: bool, choice: string): (r: Row)
    requires choice != ""
    ensures r.isDefault == isDefault
    ensures r.layout == Split(choice)[0]
    ensures |Split(choice)| >= 2 ==> r.variant == Some(Split(choice)[1])
    ensures |Split(choice)| == 1 ==> r.variant == None
  {
    var strings := Split(choice);
    Row(isDefault, strings[0], VectorAt(strings, 1))
  }

  /**
   * `xkb_settings_default_layout_toggled`: every flag is cleared, then the
   * row at `path` is flagged if the path names a row. An empty store is
   * left alone.
   */
  function ToggleDefault(rows: seq<Row>, path: int): (r: seq<Row>)
    ensures |r| == |rows|
    ensures forall j :: 0 <= j < |rows| ==> r[j] == rows[j].(isDefault := r[j].isDefault)
    ensures forall j :: 0 <= j < |rows| ==> (r[j].isDefault <==> j == path)
  {
    if |rows| == 0 then rows
    else
      var cleared := seq(|rows|, j requires 0 <= j < |rows| => rows[j].(isDefault := false));
      if 0 <= path < |rows| then cleared[path := cleared[path].(isDefault := true)] else cleared
  }

  /** Toggling a row leaves that row the one default; toggling a path that names no row leaves no default at all. */
  lemma ToggleDefaultOnly(rows: seq<Row>, path: int)
    ensures 0 <= path < |rows| ==> OnlyDefault(ToggleDefault(rows, path), path)
    ensures !(0 <= path < |rows|) ==> !ExactlyOneDefault(ToggleDefault(rows, path))
  {
    var r := ToggleDefault(rows, path);
    if !(0 <= path < |rows|) {
      forall d | 0 <= d < |r|
        ensures !OnlyDefault(r, d)
      {
        assert !r[d].isDefault;
      }
    }
  }

  /** Saving after a toggle keeps both lists and records the toggled row as the default group. */
  lemma ToggleThenSave(rows: seq<Row>, path: int, cfg: KbdConfig)
    requires 0 <= path < |rows|
    ensures var before, after := LayoutCodec.Encode(rows, cfg), LayoutCodec.Encode(ToggleDefault(rows, path), cfg);
      && after.layouts == before.layouts
      && after.variants == before.variants
      && after.defaultGroup == path
  {
    var r := ToggleDefault(rows, path);
    assert LayoutIds(r) == LayoutIds(rows);
    assert VariantTexts(r) == VariantTexts(rows);
    ToggleDefaultOnly(rows, path);
    LayoutCodec.EncodeDefault(r, cfg, path);
  }

  /** The index row `j` of the store had before row `i` was deleted. */
  function Source(i: nat, j: nat): nat
  {
    if j < i then j else j + 1
  }

  /**
   * `xkb_settings_rm_layout`: with a row selected, that row is deleted and,
   * if it was the default and rows remain, the first row is flagged as
   * the default; with no selection nothing changes.
   */
  function Remove(rows: seq<Row>, sel: Option<nat>): (r: seq<Row>)
    requires sel.Some? ==> sel.value < |rows|
    ensures sel.None? ==> r == rows
    ensures sel.Some? ==> |r| == |rows| - 1
    ensures sel.Some? ==> forall j :: 0 <= j < |r| ==>
      && SameIds(r[j], rows[Source(sel.value, j)]) && r[j].variant == rows[Source(sel.value, j)].variant
      && (r[j].isDefault <==> rows[Source(sel.value, j)].isDefault || (j == 0 && rows[sel.value].isDefault))
  {
    match sel
    case None => rows
    case Some(i) =>
      var rest := rows[..i] + rows[i + 1..];
      if rows[i].isDefault && |rest| > 0 then rest[0 := rest[0].(isDefault := true)] else rest
  }

  /** Where the single default row ends up when row `i` is deleted: the first row if it was `i`, else the same row, shifted. */
  function DefaultAfterRemove(d: nat, i: nat): nat
  {
    if d == i then 0 else if d < i then d else d - 1
  }

  /** Removing a row from a store of two or more rows with one default keeps exactly one default. */
  lemma RemoveKeepsOneDefault(rows: seq<Row>, i: nat, d: nat)
    requires i < |rows| && |rows| >= 2
    requires OnlyDefault(rows, d)
    ensures OnlyDefault(Remove(rows, Some(i)), DefaultAfterRemove(d, i))
  {
    var r := Remove(rows, Some(i));
    var nd := DefaultAfterRemove(d, i);
    forall j | 0 <= j < |r|
      ensures r[j].isDefault <==> j == nd
    {
      assert rows[Source(i, j)].isDefault <==> Source(i, j) == d;
    }
  }

  /**
   * Saving after a removal drops the row's fields from both lists and
   * moves the default group with its row, or to the first row when the
   * default row itself was removed.
   */
  lemma RemoveThenSave(rows: seq<Row>, i: nat, d: nat, cfg: KbdConfig)
    requires i < |rows| && |rows| >= 2
    requires OnlyDefault(rows, d)
    ensures var after := LayoutCodec.Encode(Remove(rows, Some(i)), cfg);
      && after.layouts == Join(LayoutIds(rows[..i] + rows[i + 1..]))
      && after.variants == Join(VariantTexts(rows[..i] + rows[i + 1..]))
      && after.defaultGroup == DefaultAfterRemove(d, i)
  {
    var r := Remove(rows, Some(i));
    var rest := rows[..i] + rows[i + 1..];
    assert LayoutIds(r) == LayoutIds(rest);
    assert VariantTexts(r) == VariantTexts(rest);
    RemoveKeepsOneDefault(rows, i, d);
    LayoutCodec.EncodeDefault(r, cfg, DefaultAfterRemove(d, i));
  }

  /**
   * `xkb_settings_add_layout`: a picked layout is appended as a
   * non-default row; when the picker was cancelled nothing changes.
   */
  function Add(rows: seq<Row>, choice: Option<string>): (r: seq<Row>)
    requires choice.Some? ==> choice.value != ""
    ensures choice.None? ==> r == rows
    ensures choice.Some? ==> |r| == |rows| + 1 && r[..|rows|] == rows && !r[|rows|].isDefault
    ensures choice.Some? ==>
      r[|rows|].layout == Split(choice.value)[0] && r[|rows|].variant == VectorAt(Split(choice.value), 1)
  {
    match choice
    case None => rows
    case Some(c) => rows + [ChoiceRow(false, c)]
  }

  /**
   * `xkb_settings_edit_layout`: the selected row takes the picked layout
   * and variant and keeps its default flag; without a pick or a selection
   * nothing changes.
   */
  function Edit(rows: seq<Row>, sel: Option<nat>, choice: Option<string>): (r: seq<Row>)
    requires sel.Some? ==> sel.value < |rows|
    requires choice.Some? ==> choice.value != ""
    ensures choice.None? || sel.None? ==> r == rows
    ensures choice.Some? && sel.Some? ==>
      && |r| == |rows|
      && (forall j :: 0 <= j < |rows| && j != sel.value ==> r[j] == rows[j])
      && r[sel.value].isDefault == rows[sel.value].isDefault
      && r[sel.value].layout == Split(choice.value)[0]
      && r[sel.value].variant == VectorAt(Split(choice.value), 1)
  {
    if choice.None? || sel.None? then rows
    else rows[sel.value := ChoiceRow(rows[sel.value].isDefault, choice.value)]
  }

  /** Adding what the picker returned appends exactly the picked layout and variant, "" standing for no variant. */
  lemma AddPicked(rows: seq<Row>, picked: PickedItem)
    requires picked.PickedLayout? ==> ',' !in picked.id
    requires picked.PickedVariant? ==> ',' !in picked.layoutId && ',' !in picked.variantId
    ensures Add(rows, PickerResult(Some(picked))) == rows + [
      match picked
      case PickedLayout(id) => Row(false, id, Some(""))
      case PickedVariant(layoutId, variantId) => Row(false, layoutId, Some(variantId))]
  {
    PickerSplit(picked);
  }

  /** Editing with what the picker returned puts exactly the picked ids on the selected row. */
  lemma EditPicked(rows: seq<Row>, i: nat, picked: PickedItem)
    requires i < |rows|
    requires picked.PickedLayout? ==> ',' !in picked.id
    requires picked.PickedVariant? ==> ',' !in picked.layoutId && ',' !in picked.variantId
    ensures Edit(rows, Some(i), PickerResult(Some(picked))) == rows[i :=
      match picked
      case PickedLayout(id) => Row(rows[i].isDefault, id, Some(""))
      case PickedVariant(layoutId, variantId) => Row(rows[i].isDefault, layoutId, Some(variantId))]
  {
    PickerSplit(picked);
  }

  /**
   * `xkb_settings_get_group_count`: 0 for an empty store, otherwise 1
   * for the first row plus one for every further row the iterator reaches.
   */
  method GroupCount(rows: seq<Row>) returns (count: int)
    ensures count == |rows|
  {
    if |rows| == 0 {
      return 0;
    }
    count := 1;
    var k := 0;
    while k + 1 < |rows|
      invariant 0 <= k < |rows|
      invariant count == k + 1
    {
      k := k + 1;
      count := count + 1;
    }
  }

  /**
   * `xkb_settings_show_hide_layout_buttons`: the add button is sensitive
   * while there are fewer rows than the maximum, the remove button while
   * there is more than one, both only when modifications are allowed.
   */
  method ShowHideLayoutButtons(rows: seq<Row>, maxGroups: int, neverModify: bool)
    returns (addSensitive: bool, removeSensitive: bool)
    ensures addSensitive <==> |rows| < maxGroups && !neverModify
    ensures removeSensitive <==> |rows| > 1 && !neverModify
    ensures addSensitive <==> Enabled(rows, AddLayout(None), maxGroups, neverModify)
    ensures removeSensitive <==> Enabled(rows, RemoveLayout(None), maxGroups, neverModify)
  {
    var nb := GroupCount(rows);
    addSensitive := nb < maxGroups && !neverModify;
    removeSensitive := nb > 1 && !neverModify;
  }

  /**
   * `xkb_settings_edit_layout_btn_show`: the edit button is sensitive
   * while a row is selected and modifications are allowed. A selection
   * always names a row of the store.
   */
  function EditLayoutButtonSensitive(rows: seq<Row>, sel: Option<nat>, neverModify: bool): (r: bool)
    requires sel.Some? ==> sel.value < |rows|
    ensures r <==> sel.Some? && !neverModify
    ensures forall picked: Option<PickedItem>, maxGroups: int ::
      r <==> Enabled(rows, EditLayout(sel, picked), maxGroups, neverModify)
  {
    sel.Some? && !neverModify
  }

  /** One user action on the layout list. */
  datatype EditorAction =
    | AddLayout(picked: Option<PickedItem>)
    | RemoveLayout(sel: Option<nat>)
    | EditLayout(sel: Option<nat>, picked: Option<PickedItem>)
    | ToggleDefaultRow(path: int)

  /**
   * When the dialog lets the action happen: add and remove follow their
   * buttons' sensitivity, edit needs a selected row and modifications
   * allowed (`xkb_settings_edit_layout_btn_show`), and a toggle comes
   * from a row the user clicked. A selection always names a row.
   */
  predicate Enabled(rows: seq<Row>, action: EditorAction, maxGroups: int, neverModify: bool)
  {
    match action
    case AddLayout(_) => |rows| < maxGroups && !neverModify
    case RemoveLayout(sel) => |rows| > 1 && !neverModify && (sel.Some? ==> sel.value < |rows|)
    case EditLayout(sel, _) => sel.Some? && sel.value < |rows| && !neverModify
    case ToggleDefaultRow(path) => 0 <= path < |rows|
  }

  /** The rows after a handler has run. */
  function Apply(rows: seq<Row>, action: EditorAction): seq<Row>
    requires action.RemoveLayout? && action.sel.Some? ==> action.sel.value < |rows|
    requires action.EditLayout? && action.sel.Some? ==> action.sel.value < |rows|
  {
    match action
    case AddLayout(picked) => Add(rows, PickerResult(picked))
    case RemoveLayout(sel) => Remove(rows, sel)
    case EditLayout(sel, picked) => Edit(rows, sel, PickerResult(picked))
    case ToggleDefaultRow(path) => ToggleDefault(rows, path)
  }

  /** Between one and `maxGroups` rows, exactly one of them the default. */
  predicate Valid(rows: seq<Row>, maxGroups: int)
  {
    1 <= |rows| <= maxGroups && ExactlyOneDefault(rows)
  }

  /** Every action the dialog lets through keeps the store valid. */
  lemma EnabledActionKeepsValid(rows: seq<Row>, action: EditorAction, maxGroups: int, neverModify: bool)
    requires Valid(rows, maxGroups)
    requires Enabled(rows, action, maxGroups, neverModify)
    ensures Valid(Apply(rows, action), maxGroups)
  {
    var d :| 0 <= d < |rows| && OnlyDefault(rows, d);
    var r := Apply(rows, action);
    match action
    case AddLayout(picked) =>
      if picked.Some? {
        assert OnlyDefault(r, d);
      }
    case RemoveLayout(sel) =>
      if sel.Some? {
        RemoveKeepsOneDefault(rows, sel.value, d);
      }
    case EditLayout(sel, picked) =>
      if picked.Some? {
        assert OnlyDefault(r, d);
      }
    case ToggleDefaultRow(path) =>
      ToggleDefaultOnly(rows, path);
  }
}
