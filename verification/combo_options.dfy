/**
 * The keyboard model, toggle option and compose key combos of the
 * settings dialog: which row each combo preselects for the current
 * configuration, how the chosen row's id is stored back (the empty id
 * meaning "none"), and how a registry item's display text is chosen.
 * A combo's store is modelled as the sequence of its rows' ids.
 */
module ComboOptions {
  import opened Nullable
  import opened GStrings

  /** The first row whose id is `want`, if there is one. */
  function IndexOf(ids: seq<string>, want: string): (r: Option<nat>)
    ensures r.Some? ==> r.value < |ids| && ids[r.value] == want
    ensures r.Some? ==> forall j :: 0 <= j < r.value ==> ids[j] != want
    ensures r.None? <==> want !in ids
  {
    if |ids| == 0 then None
    else if ids[0] == want then Some(0)
    else
      match IndexOf(ids[1..], want)
      case None => None
      case Some(k) => Some(k + 1)
  }

  /**
   * `xkb_settings_set_toggle_option_combo_default_value` and
   * `xkb_settings_set_compose_key_position_combo_default_value`: with no
   * rows nothing is selected; with no configured option the first row is;
   * otherwise the first row whose id matches, or nothing.
   */
  function OptionComboSelection(ids: seq<string>, configured: Option<string>): (r: Option<nat>)
    ensures |ids| == 0 ==> r.None?
    ensures |ids| > 0 && configured.None? ==> r == Some(0)
    ensures configured.Some? ==> r == IndexOf(ids, configured.value)
  {
    if |ids| == 0 then None
    else if configured.None? then Some(0)
    else IndexOf(ids, configured.value)
  }

  /**
   * `xkb_settings_set_kbd_combo_default_value`: the first row whose id is
   * the configured model; with no configured model nothing is selected.
   */
  function ModelComboSelection(ids: seq<string>, model: Option<string>): (r: Option<nat>)
    ensures model.None? ==> r.None?
    ensures model.Some? ==> r == IndexOf(ids, model.value)
  {
    if |ids| == 0 then None
    else if model.None? then None
    else IndexOf(ids, model.value)
  }

  /** How `xkb_settings_update_from_ui` stores a toggle or compose id: the empty id becomes NULL. */
  function StoredOption(id: string): (r: Option<string>)
    ensures r.None? <==> id == ""
    ensures r.ValueOr("") == id
  {
    if id == "" then None else Some(id)
  }

  predicate Distinct(ids: seq<string>)
  {
    forall i, j :: 0 <= i < j < |ids| ==> ids[i] != ids[j]
  }

  /**
   * Choosing row `k` of an option combo, saving, and reopening the dialog
   * preselects row `k` again, provided the ids are distinct and the empty
   * "none" id, if chosen, sits in the first row.
   */
  lemma OptionComboRoundTrip(ids: seq<string>, k: nat)
    requires Distinct(ids)
    requires k < |ids|
    requires ids[k] == "" ==> k == 0
    ensures OptionComboSelection(ids, StoredOption(ids[k])) == Some(k)
  {
    if ids[k] != "" {
      var r := IndexOf(ids, ids[k]);
      assert r.Some?;
    }
  }

  /** Choosing row `k` of the model combo, saving, and reopening preselects row `k` again when the ids are distinct. */
  lemma ModelComboRoundTrip(ids: seq<string>, k: nat)
    requires Distinct(ids)
    requires k < |ids|
    ensures ModelComboSelection(ids, Some(ids[k])) == Some(k)
  {
    var r := IndexOf(ids, ids[k]);
    assert r.Some?;
  }

  /**
   * `xci_desc_to_utf8`: the registry item's description stripped of
   * surrounding whitespace, or its name when nothing is left.
   */
  function DescToUtf8(description: string, name: string): (r: string)
    ensures AllSpace(description) ==> r == name
    ensures !AllSpace(description) ==>
      && r != "" && !IsSpace(r[0]) && !IsSpace(r[|r| - 1])
      && exists a :: 0 <= a <= |description| - |r|
           && description == description[..a] + r + description[a + |r|..]
           && SpaceBetween(description, 0, a) && SpaceBetween(description, a + |r|, |description|)
  {
    var sd := Strip(description);
    if sd == "" then name
    else
      var a := LeadingSpace(description);
      Around(description, a, sd);
      sd
  }

  /** The whitespace `g_strstrip` removes: tab, newline, form feed, carriage return and space, and no other character. */
  lemma SpaceCharacters(c: char)
    ensures IsSpace(c) <==> c as int in {9, 10, 12, 13, 32}
  {
  }

  /** A non-empty description with no whitespace at either end is shown as it is. */
  lemma DescUntrimmed(description: string, name: string)
    requires description != ""
    requires !IsSpace(description[0]) && !IsSpace(description[|description| - 1])
    ensures DescToUtf8(description, name) == description
  {
    assert LeadingSpace(description) == 0;
    assert Chug(description) == description[0..] == description;
    assert TrailingSpace(description) == 0;
    assert Chomp(description) == description[..|description|] == description;
  }

  /** Example: a vertical tab is not whitespace to `g_ascii_isspace`, so a description made of one is its own display text. */
  lemma VerticalTabKept()
    ensures DescToUtf8([11 as char], "us") == [11 as char]
  {
    var vt := [11 as char];
    assert !IsSpace(vt[0]);
    assert LeadingSpace(vt) == 0 && Chug(vt) == vt[0..] == vt;
    assert TrailingSpace(vt) == 0 && Chomp(vt) == vt[..1] == vt;
  }

  /** Example: a description of nothing but space, tab, newline, form feed and carriage return falls back to the name. */
  lemma GLibWhitespaceFallsBack()
    ensures DescToUtf8([' ', 9 as char, 10 as char, 12 as char, 13 as char], "us") == "us"
  {
    var ws := [' ', 9 as char, 10 as char, 12 as char, 13 as char];
    assert IsSpace(ws[0]) && IsSpace(ws[1]) && IsSpace(ws[2]) && IsSpace(ws[3]) && IsSpace(ws[4]);
  }

  /** Example: spaces around a vertical tab are stripped and the vertical tab stays. */
  lemma VerticalTabInsideSpaces()
    ensures DescToUtf8([' ', 11 as char, 'x', ' '], "us") == [11 as char, 'x']
  {
    var s := [' ', 11 as char, 'x', ' '];
    var c := [11 as char, 'x', ' '];
    assert s[1..] == c;
    assert LeadingSpace(c) == 0;
    assert LeadingSpace(s) == 1;
    assert Chug(s) == c;
    assert c[..2] == [11 as char, 'x'];
    assert TrailingSpace(c[..2]) == 0;
    assert TrailingSpace(c) == 1;
    assert Chomp(c) == [11 as char, 'x'];
  }
}
