# xfce4-xkb-plugin: layout list and event dispatch, modelled in Dafny

The Xfce keyboard-layout panel plugin shows the active XKB group and lets
the user switch groups by clicking or scrolling on the panel button. Its
settings dialog edits an ordered list of layouts. Each row has a
"default" toggle, a layout id and a variant id. The dialog saves the list
as two comma-separated strings, `layouts` and `variants`, plus the index
`default_group`.

This project models two parts of the plugin as pure functions.

1. The dialog's layout list store is modelled as a `seq<Row>`. The model
   covers the following.
   - Filling the store from the configuration strings.
   - Rebuilding the strings from the store after every change.
   - Toggling the default row.
   - Removing, adding and editing rows from the layout picker's result string.
   - Counting groups and deciding which buttons are sensitive.
   - Preselecting the model, toggle-option and compose-key combos.
   - Storing an empty option id as NULL.
   - Choosing a registry item's display text.
2. The panel button's callbacks are modelled as a decision table. A
   click or a scroll maps to a keyboard action and the `gboolean`
   returned to GTK. A window-manager notification (the active window
   changing, an application or a window closing) maps to the notice it
   forwards to the keyboard's group tracking; those handlers return
   nothing.

Modules:

- `Nullable`: `Option`, standing in for a nullable C pointer.
- `GStrings`: `g_strsplit_set (s, ",", 0)` as `Split`, the comma join
  built by `g_strconcat` as `Join`, and `g_strstrip` as `Strip`
  (`g_strchug`, then `g_strchomp`).
- `LayoutRows`: the `Row` and `KbdConfig` datatypes and the
  "exactly one default row" predicate.
- `LayoutCodec`: `Fill`, `Encode`, and the loop of
  `xkb_settings_update_from_ui` (`UpdateFromUi`). It also holds the
  round trips between them.
- `LayoutEditor`: the list edits, the picker string, `GroupCount`,
  button sensitivity, and the invariant kept by every action the dialog
  enables.
- `ComboOptions`: the combo preselection searches, the `"" -> NULL`
  normalisation and `xci_desc_to_utf8`.
- `Callbacks`: `xkb-callbacks.c`.

Behaviour of the code that the model keeps as written:

- The handlers report no errors. A malformed configuration, a removal
  down to no rows or an addition past the maximum are not rejected by
  the code that fills, edits or saves the store.
- Filling the store reads `variants[i]` for each layout index `i`. So a
  variants list exactly one field short yields a NULL variant on the last
  row. A shorter variants list makes that read run past the vector, which
  is undefined behaviour, so `Fill` has a precondition instead. Extra
  variant fields are ignored.
- Removing the last row and adding beyond the maximum are prevented only
  by the sensitivity of the remove and add buttons, not by the handlers.
  The model expresses this with `Enabled` and `EnabledActionKeepsValid`.
- Rebuilding from an empty store leaves the configuration unchanged.
  With no flagged row, `default_group` is also left unchanged.
- The variants string of a single row with no variant is `""`. Splitting
  it gives no fields, so the refilled row's variant is NULL. The round
  trip therefore holds up to "NULL variant = empty variant".

## Model

| member | source | states |
|---|---|---|
| GStrings.Pieces | panel-plugin/xkb-settings-dialog.c:121-122 | cutting a non-empty string at its commas yields at least one piece, none containing a comma |
| GStrings.Split | panel-plugin/xkb-settings-dialog.c:121-122 | the split of a string is empty exactly when the string is empty, and its pieces are comma-free |
| GStrings.JoinSplit | panel-plugin/xkb-settings-dialog.c:121-122 | joining the split pieces of any string with "," gives that string back |
| GStrings.JoinPieces | panel-plugin/xkb-settings-dialog.c:121-122 | joining the comma pieces of any string, empty or not, restores it |
| GStrings.PiecesPrefix | panel-plugin/xkb-settings-dialog.c:121-122 | a comma-free prefix only extends the first piece of the split |
| GStrings.PiecesJoin | panel-plugin/xkb-settings-dialog.c:1001-1012 | cutting the comma join of one or more comma-free pieces yields exactly those pieces |
| GStrings.SplitJoin | panel-plugin/xkb-settings-dialog.c:1001-1012 | splitting the join of comma-free pieces gives them back, unless the only piece is "" |
| GStrings.Join | panel-plugin/xkb-settings-dialog.c:983-1013 | the list built field by field starts with the first field and has a comma once there are two fields; with SplitJoin and JoinSplit it is the inverse of the comma split |
| GStrings.JoinSnoc | panel-plugin/xkb-settings-dialog.c:1001-1003 | appending "," and one more field to a joined list is the join of the longer list |
| GStrings.Chug | panel-plugin/xkb-settings-dialog.c:108 | the leading-whitespace strip keeps a suffix, drops only whitespace, and the suffix does not start with whitespace |
| GStrings.Chomp | panel-plugin/xkb-settings-dialog.c:108 | the trailing-whitespace strip keeps a prefix, drops only whitespace, and the prefix does not end with whitespace |
| GStrings.LeadingSpace | panel-plugin/xkb-settings-dialog.c:108 | the count of leading characters g_strchug skips: all of them whitespace, and the next one, if any, not |
| GStrings.TrailingSpace | panel-plugin/xkb-settings-dialog.c:108 | the count of trailing characters g_strchomp cuts: all of them whitespace, and the one before, if any, not |
| GStrings.Strip | panel-plugin/xkb-settings-dialog.c:108-109 | the stripped text is empty exactly when the input is all whitespace; otherwise it has no whitespace at either end; either way it is the stretch of the input after its leading whitespace, with only whitespace after it |
| GStrings.StripIdempotent | panel-plugin/xkb-settings-dialog.c:108 | stripping twice is the same as stripping once |
| LayoutCodec.FillFrom | panel-plugin/xkb-settings-dialog.c:124-133 | the loop from index k creates one row per remaining layout, with the variant at the same index (NULL at the terminator) and the flag set iff the index is default_group |
| LayoutCodec.Fill | panel-plugin/xkb-settings-dialog.c:113-137 | one row per layout piece in order; row i's variant is variant piece i or NULL when that split is one short; the flag is set exactly on row default_group |
| LayoutCodec.FillDefault | panel-plugin/xkb-settings-dialog.c:128 | the filled store has exactly one default row iff default_group indexes a row, and then it is that row |
| LayoutCodec.LastDefault | panel-plugin/xkb-settings-dialog.c:978-998 | after the pass the default group is the last flagged row, and the old value when no row is flagged |
| LayoutCodec.Encode | panel-plugin/xkb-settings-dialog.c:977-1014 | an empty store leaves the configuration as it was; otherwise default_group is the last flagged row's index, or unchanged when none is flagged |
| LayoutCodec.EncodeDefault | panel-plugin/xkb-settings-dialog.c:980-998 | with exactly one default row, the saved default_group is that row's index |
| LayoutCodec.EncodeSegments | panel-plugin/xkb-settings-dialog.c:983-1013 | for comma-free ids, the saved layouts and variants, cut at every comma (`Pieces`), give back the rows' layouts and variants (NULL as ""), one field per row; GLib's split differs only for a single row whose layout or variant text is empty: it splits the saved "" into no fields |
| LayoutCodec.EncodeStep | panel-plugin/xkb-settings-dialog.c:996-1011 | one more row appends "," and its layout to the layouts, "," and its variant (or nothing) to the variants, and moves the default group to this row when it is flagged |
| LayoutCodec.UpdateFromUi | panel-plugin/xkb-settings-dialog.c:977-1014 | the string-building loop over the store produces exactly the joined lists and the last-flagged default group |
| LayoutCodec.FillEncode | panel-plugin/xkb-settings-dialog.c:113-137 | a non-empty store with non-empty comma-free ids and one default row, saved and refilled, gives the same rows, with NULL and "" variants treated alike |
| LayoutCodec.EncodeFill | panel-plugin/xkb-settings-dialog.c:977-1014 | a configuration with as many variant fields as layouts (or one layout and no variants), filled and saved, gives the same strings back; default_group is kept if it names a row |
| LayoutEditor.PickerResult | panel-plugin/xkb-settings-dialog.c:896-919 | the picker returns a string exactly when an item was picked, and that string always holds a comma |
| LayoutEditor.PickerSplit | panel-plugin/xkb-settings-dialog.c:896-919 | the picker string splits into [layout, ""] for a layout and [layout, variant] for a variant |
| LayoutEditor.ChoiceRow | panel-plugin/xkb-settings-dialog.c:383-391 | a row built from a choice string takes piece 0 as its layout and piece 1 as its variant (NULL when there is no piece 1) |
| LayoutEditor.ToggleDefault | panel-plugin/xkb-settings-dialog.c:466-477 | toggling keeps every row's ids, and afterwards a row is default exactly when it is the toggled one |
| LayoutEditor.ToggleDefaultOnly | panel-plugin/xkb-settings-dialog.c:466-477 | toggling a row makes it the one default; a path naming no row leaves no default |
| LayoutEditor.ToggleThenSave | panel-plugin/xkb-settings-dialog.c:474-478 | saving after a toggle keeps both lists and records the toggled row as default_group |
| LayoutEditor.Remove | panel-plugin/xkb-settings-dialog.c:437-447 | with a selection, exactly that row is deleted and the rest keep their order; the first remaining row becomes default if the deleted one was; with no selection nothing changes |
| LayoutEditor.RemoveKeepsOneDefault | panel-plugin/xkb-settings-dialog.c:439-447 | removing from two or more rows with one default leaves one default: row 0 if the default was removed, else the same row shifted |
| LayoutEditor.RemoveThenSave | panel-plugin/xkb-settings-dialog.c:437-452 | saving after a removal drops the row's fields from both lists and moves default_group with its row, or to 0 |
| LayoutEditor.Add | panel-plugin/xkb-settings-dialog.c:405-417 | a pick appends exactly one non-default row holding pieces 0 and 1 of the choice and keeps the existing rows; a cancelled picker changes nothing |
| LayoutEditor.Edit | panel-plugin/xkb-settings-dialog.c:375-392 | with a pick and a selection, only the selected row changes, it keeps its default flag and takes pieces 0 and 1 of the choice as layout and variant; otherwise nothing changes |
| LayoutEditor.AddPicked | panel-plugin/xkb-settings-dialog.c:411-417 | adding a picked layout appends (false, layout, "") and adding a picked variant appends (false, layout, variant) |
| LayoutEditor.EditPicked | panel-plugin/xkb-settings-dialog.c:383-392 | editing with a pick replaces the selected row by the picked ids with the row's own default flag |
| LayoutEditor.GroupCount | panel-plugin/xkb-settings-dialog.c:326-339 | the count of rows, 0 for an empty store |
| LayoutEditor.ShowHideLayoutButtons | panel-plugin/xkb-settings-dialog.c:341-350 | add is sensitive iff there are fewer rows than the maximum and modification is allowed; remove iff there is more than one row and modification is allowed; these are exactly the conditions under which the dialog enables an add or a remove |
| LayoutEditor.EditLayoutButtonSensitive | panel-plugin/xkb-settings-dialog.c:352-364 | the edit button is sensitive exactly when a row is selected and modification is allowed, which is exactly when the dialog enables an edit, whatever is picked |
| LayoutEditor.EnabledActionKeepsValid | panel-plugin/xkb-settings-dialog.c:341-364 | every add, remove, edit or toggle the dialog enables keeps between 1 and the maximum number of rows, with exactly one default |
| ComboOptions.IndexOf | panel-plugin/xkb-settings-dialog.c:227-243 | the search finds the first row whose id matches, and finds none exactly when no row matches |
| ComboOptions.OptionComboSelection | panel-plugin/xkb-settings-dialog.c:205-247 | an empty combo selects nothing; with no configured option the first row is selected; otherwise the first matching row |
| ComboOptions.ModelComboSelection | panel-plugin/xkb-settings-dialog.c:293-324 | with no configured model nothing is selected; otherwise the first row whose id is the model |
| ComboOptions.StoredOption | panel-plugin/xkb-settings-dialog.c:956-960 | an empty id is stored as NULL and any other id as itself, so reading NULL as "" gives the id back |
| ComboOptions.OptionComboRoundTrip | panel-plugin/xkb-settings-dialog.c:953-975 | with distinct ids, an option chosen, saved and preselected again is the same row, when the empty id is in the first row |
| ComboOptions.ModelComboRoundTrip | panel-plugin/xkb-settings-dialog.c:945-951 | with distinct ids, a model chosen, saved and preselected again is the same row |
| ComboOptions.DescToUtf8 | panel-plugin/xkb-settings-dialog.c:105-110 | an all-whitespace description gives the name; otherwise the result is the description's middle, non-empty, trimmed at both ends |
| ComboOptions.SpaceCharacters | panel-plugin/xkb-settings-dialog.c:108 | the whitespace g_strstrip removes is exactly the characters 9, 10, 12, 13 and 32: tab, newline, form feed, carriage return and space, never vertical tab |
| ComboOptions.DescUntrimmed | panel-plugin/xkb-settings-dialog.c:105-110 | a non-empty description with no whitespace at either end is its own display text, for every description and name |
| ComboOptions.VerticalTabKept | panel-plugin/xkb-settings-dialog.c:105-110 | a description that is a lone vertical tab is kept as the display text, since g_ascii_isspace does not count it |
| ComboOptions.GLibWhitespaceFallsBack | panel-plugin/xkb-settings-dialog.c:105-110 | a description of space, tab, newline, form feed and carriage return falls back to the item's name |
| ComboOptions.VerticalTabInsideSpaces | panel-plugin/xkb-settings-dialog.c:105-110 | the spaces around a vertical tab are stripped and the vertical tab stays in the display text |
| Callbacks.ButtonClicked | panel-plugin/xkb-callbacks.c:135-162 | the left-button press with more than two groups opens the popup and is the only case returning true; the left-button release with at most two groups selects the next group; all else does nothing |
| Callbacks.LeftClickActsOnce | panel-plugin/xkb-callbacks.c:143-159 | a left press followed by a release performs exactly one action: the popup with more than two groups, the next group otherwise |
| Callbacks.ButtonScrolled | panel-plugin/xkb-callbacks.c:164-186 | up and right select the next group, down and left the previous one, each returning true; any other direction does nothing and returns false |
| Callbacks.OppositeScrollsStepBothWays | panel-plugin/xkb-callbacks.c:171-180 | a scroll and its opposite ask for one next-group and one previous-group step |
| Callbacks.ToGuint | panel-plugin/xkb-callbacks.c:40-45 | storing an id in a guint keeps it below 2^32 and congruent to the original modulo 2^32 |
| Callbacks.ToGuintKeepsSmall | panel-plugin/xkb-callbacks.c:40-45 | the guint conversion changes a value exactly when it does not fit in 32 bits |
| Callbacks.ActiveWindowChanged | panel-plugin/xkb-callbacks.c:34-48 | no active window forwards nothing; otherwise the window's xid and pid are forwarded, each as the value below 2^32 congruent to it modulo 2^32, and unchanged when it already fits |
| Callbacks.ApplicationClosedNotice | panel-plugin/xkb-callbacks.c:50-60 | a closed application's pid is forwarded as the value below 2^32 congruent to it modulo 2^32, unchanged when it already fits |
| Callbacks.WindowClosedNotice | panel-plugin/xkb-callbacks.c:62-72 | a closed window's xid is forwarded as the value below 2^32 congruent to it modulo 2^32, unchanged when it already fits |
| Callbacks.GuintDetermined | panel-plugin/xkb-callbacks.c:44-45 | a value below 2^32 congruent to x modulo 2^32 is the guint conversion of x, so the forwarded ids are fully determined |

## Left out

- Per-window and per-application group tracking: `xkb_keyboard_window_changed`, `xkb_keyboard_application_closed`, `xkb_keyboard_window_closed`, `xkb_keyboard_next_group` and `xkb_keyboard_prev_group`. Their implementation (xkb-keyboard.c) is not part of this model. The callbacks are modelled only up to the notice or action they forward.
- GTK widget construction, the About dialog, tooltips, drawing and popup positioning (`xfce_xkb_configure`, `xfce_xkb_about`, `xkb_settings_config_modification_disabled_tooltip`, `xkb_plugin_layout_image_draw`, `xkb_plugin_set_tooltip`, `xkb_plugin_popup_menu`). These are UI only, with no logic beyond toolkit calls.
- libxklavier registry enumeration (`xkb_settings_add_*_to_list`, `xkb_settings_add_*_to_available_layouts_tree`) and the sorting of the combo stores. These are foreign calls. A combo store is modelled as the sequence of its ids in their final order.
- The picker dialog's widget handling. Only its result string is modelled. Cancelling, an empty selection and a failed move to the parent row all give `None`.
- Persistence and refresh: `xfce_xkb_save_config`, `xkb_config_update_settings`, `xkb_refresh_gui`, `xkb_config_get_max_layout_number`. These are side effects or foreign calls. The maximum layout number is a parameter.
- Display type, text size and group policy combo callbacks (`on_display_type_changed`, `on_display_textsize_changed`, `on_group_policy_changed`). Each copies the combo's active index into a field; the first two then call `xkb_refresh_gui`, which is a side effect and is left out with the persistence calls.
- LayoutEditor.ToggleDefault: takes the toggled path as an integer row index. Parsing of the path string by `gtk_tree_model_get_iter_from_string` is not modelled. A path naming no row is the out-of-range case.
- ComboOptions.DescToUtf8: returns a new string. The source strips the registry item's description in place. That mutation is not modelled.
- GStrings.IsSpace: takes GLib's ASCII whitespace set (space, tab, newline, form feed, carriage return; not vertical tab). Locale and encoding play no part, and characters outside ASCII are never whitespace.
- Memory management (`g_free`, `g_strfreev`) and the GTK iterators themselves. Rows are values in a sequence.
