/**
 * Marshalling between the keyboard configuration's comma lists and the
 * rows of the layout list store: filling the store when the dialog opens
 * (`xkb_settings_fill_layout_tree_model_with_config`) and rebuilding the
 * lists from the store after every change (the layout part of
 * `xkb_settings_update_from_ui`).
 */
module LayoutCodec {
  import opened Nullable
  import opened GStrings
  import opened LayoutRows

  /** Rows `k..` of the store built from the split layout and variant vectors. */
  function FillFrom(ls: seq<string>, vs: seq<string>, defaultGroup: int, k: nat): (r: seq<Row>)
    requires k <= |ls| <= |vs| + 1
    ensures |r| == |ls| - k
    ensures forall i :: 0 <= i < |r| ==>
      r[i] == Row(k + i == defaultGroup, ls[k + i], VectorAt(vs, k + i))
    decreases |ls| - k
  {
    if k == |ls| then []
    else [Row(k == defaultGroup, ls[k], VectorAt(vs, k))] + FillFrom(ls, vs, defaultGroup, k + 1)
  }

  /**
   * The store the dialog opens with: one row per layout piece, in order.
   * The loop reads the variants vector at the same index, so it may be
   * at most one shorter than the layouts vector (then the last row reads
   * the NULL terminator); any shorter would read past the vector.
   */
  function Fill(layoutsCsv: string, variantsCsv: string, defaultGroup: int): (r: seq<Row>)
    requires |Split(layoutsCsv)| <= |Split(variantsCsv)| + 1
    ensures |r| == |Split(layoutsCsv)|
    ensures forall i :: 0 <= i < |r| ==>
      && r[i].layout == Split(layoutsCsv)[i]
      && r[i].variant == VectorAt(Split(variantsCsv), i)
      && (r[i].isDefault <==> i == defaultGroup)
  {
    FillFrom(Split(layoutsCsv), Split(variantsCsv), defaultGroup, 0)
  }

  /** A filled store has exactly one default row iff the default group indexes one of its rows. */
  lemma FillDefault(layoutsCsv: string, variantsCsv: string, defaultGroup: int)
    requires |Split(layoutsCsv)| <= |Split(variantsCsv)| + 1
    ensures ExactlyOneDefault(Fill(layoutsCsv, variantsCsv, defaultGroup))
      <==> 0 <= defaultGroup < |Split(layoutsCsv)|
    ensures 0 <= defaultGroup < |Split(layoutsCsv)| ==>
      OnlyDefault(Fill(layoutsCsv, variantsCsv, defaultGroup), defaultGroup)
  {
    var r := Fill(layoutsCsv, variantsCsv, defaultGroup);
    if 0 <= defaultGroup < |r| {
      assert OnlyDefault(r, defaultGroup);
    } else {
      forall d | 0 <= d < |r|
        ensures !OnlyDefault(r, d)
      {
        assert !r[d].isDefault;
      }
    }
  }

  /**
   * The index the default group takes after a pass over the store: the
   * last flagged row wins, and with no flagged row it stays `fallback`.
   */
  function LastDefault(rows: seq<Row>, fallback: int): (r: int)
    ensures (exists j :: 0 <= j < |rows| && rows[j].isDefault) ==>
      && 0 <= r < |rows| && rows[r].isDefault
      && forall j :: r < j < |rows| ==> !rows[j].isDefault
    ensures (forall j :: 0 <= j < |rows| ==> !rows[j].isDefault) ==> r == fallback
  {
    if |rows| == 0 then fallback
    else if rows[|rows| - 1].isDefault then |rows| - 1
    else LastDefault(rows[..|rows| - 1], fallback)
  }

  /**
   * The configuration rebuilt from the store. An empty store leaves the
   * configuration as it was; otherwise the layouts and the variants are
   * joined in row order (a NULL variant giving an empty field) and the
   * default group becomes the index of the last flagged row, if any.
   */
  function Encode(rows: seq<Row>, cfg: KbdConfig): (r: KbdConfig)
    ensures |rows| == 0 ==> r == cfg
    ensures (exists j :: 0 <= j < |rows| && rows[j].isDefault) ==>
      && 0 <= r.defaultGroup < |rows| && rows[r.defaultGroup].isDefault
      && forall j :: r.defaultGroup < j < |rows| ==> !rows[j].isDefault
    ensures (forall j :: 0 <= j < |rows| ==> !rows[j].isDefault) ==> r.defaultGroup == cfg.defaultGroup
  {
    if |rows| == 0 then cfg
    else KbdConfig(Join(LayoutIds(rows)), Join(VariantTexts(rows)), LastDefault(rows, cfg.defaultGroup))
  }

  /** With exactly one default row, encoding records that row's index. */
  lemma EncodeDefault(rows: seq<Row>, cfg: KbdConfig, d: int)
    requires OnlyDefault(rows, d)
    ensures Encode(rows, cfg).defaultGroup == d
  {
    assert rows[d].isDefault;
  }

  /**
   * The two lists of a non-empty store of comma-free ids, cut at every
   * comma (`Pieces`), give back the row ids, one segment per row each.
   * GLib's split agrees except on a single row whose layout or variant
   * text is empty: it cuts the saved "" into no fields at all.
   */
  lemma EncodeSegments(rows: seq<Row>, cfg: KbdConfig)
    requires |rows| >= 1
    requires forall i :: 0 <= i < |rows| ==> ',' !in rows[i].layout && ',' !in VariantText(rows[i].variant)
    ensures Pieces(Encode(rows, cfg).layouts) == LayoutIds(rows)
    ensures Pieces(Encode(rows, cfg).variants) == VariantTexts(rows)
  {
    PiecesJoin(LayoutIds(rows));
    PiecesJoin(VariantTexts(rows));
  }

  /** Taking one more row into the prefix appends its ids and may move the default. */
  lemma EncodeStep(rows: seq<Row>, i: nat, fallback: int)
    requires 1 <= i < |rows|
    ensures Join(LayoutIds(rows[..i + 1])) == Join(LayoutIds(rows[..i])) + "," + rows[i].layout
    ensures Join(VariantTexts(rows[..i + 1])) == Join(VariantTexts(rows[..i])) + "," + VariantText(rows[i].variant)
    ensures LastDefault(rows[..i + 1], fallback) == if rows[i].isDefault then i else LastDefault(rows[..i], fallback)
  {
    assert rows[..i + 1][..i] == rows[..i];
    assert LayoutIds(rows[..i + 1]) == LayoutIds(rows[..i]) + [rows[i].layout];
    assert VariantTexts(rows[..i + 1]) == VariantTexts(rows[..i]) + [VariantText(rows[i].variant)];
    JoinSnoc(LayoutIds(rows[..i]), rows[i].layout);
    JoinSnoc(VariantTexts(rows[..i]), VariantText(rows[i].variant));
  }

  /**
   * `xkb_settings_update_from_ui`'s walk over the layout store: the
   * first row starts both lists (a NULL variant as ""), each further row
   * appends "," and its ids, and every flagged row overwrites the default
   * group with its index.
   */
  method UpdateFromUi(rows: seq<Row>, cfg: KbdConfig) returns (r: KbdConfig)
    ensures r == Encode(rows, cfg)
  {
    if |rows| == 0 {
      return cfg;
    }
    var defaultGroup := cfg.defaultGroup;
    if rows[0].isDefault {
      defaultGroup := 0;
    }
    var layouts := rows[0].layout;
    var variants := VariantText(rows[0].variant);
    assert rows[..1] == [rows[0]];
    assert LayoutIds(rows[..1]) == [rows[0].layout];
    assert VariantTexts(rows[..1]) == [VariantText(rows[0].variant)];
    var i := 1;
    while i < |rows|
      invariant 1 <= i <= |rows|
      invariant layouts == Join(LayoutIds(rows[..i]))
      invariant variants == Join(VariantTexts(rows[..i]))
      invariant defaultGroup == LastDefault(rows[..i], cfg.defaultGroup)
    {
      EncodeStep(rows, i, cfg.defaultGroup);
      if rows[i].isDefault {
        defaultGroup := i;
      }
      layouts := layouts + "," + rows[i].layout;
      variants := variants + "," + VariantText(rows[i].variant);
      i := i + 1;
    }
    assert rows[..i] == rows;
    r := KbdConfig(layouts, variants, defaultGroup);
  }

  /**
   * The store the dialog can save: at least one row, non-empty comma-free
   * layout ids, comma-free variant ids and exactly one default row.
   */
  predicate WellFormed(rows: seq<Row>)
  {
    && |rows| >= 1
    && (forall i :: 0 <= i < |rows| ==>
          rows[i].layout != "" && ',' !in rows[i].layout && ',' !in VariantText(rows[i].variant))
    && ExactlyOneDefault(rows)
  }

  /**
   * Saving a well-formed store and filling a new store from the saved
   * configuration reproduces the rows, a NULL variant coming back as ""
   * (or the other way round).
   */
  lemma FillEncode(rows: seq<Row>, cfg: KbdConfig)
    requires WellFormed(rows)
    ensures var e := Encode(rows, cfg);
      && |Split(e.layouts)| == |rows|
      && |Split(e.layouts)| <= |Split(e.variants)| + 1
      && Equivalent(Fill(e.layouts, e.variants, e.defaultGroup), rows)
  {
    var e := Encode(rows, cfg);
    var ls, vs := LayoutIds(rows), VariantTexts(rows);
    SplitJoin(ls);
    assert Split(e.layouts) == ls;
    if |rows| == 1 && vs[0] == "" {
      assert e.variants == "";
      assert Split(e.variants) == [];
    } else {
      SplitJoin(vs);
      assert Split(e.variants) == vs;
    }
    var d :| OnlyDefault(rows, d);
    EncodeDefault(rows, cfg, d);
    var f := Fill(e.layouts, e.variants, e.defaultGroup);
    forall i | 0 <= i < |rows|
      ensures f[i].isDefault == rows[i].isDefault && SameIds(f[i], rows[i])
    {
      assert f[i].layout == ls[i];
      assert VariantText(f[i].variant) == vs[i];
    }
  }

  /**
   * Filling a store from a configuration whose two lists have the same
   * number of fields (or a single layout with no variants) and saving it
   * again gives the same lists back; the default group survives when it
   * names a row and is otherwise kept as it was in `cfg`.
   */
  lemma EncodeFill(layoutsCsv: string, variantsCsv: string, defaultGroup: int, cfg: KbdConfig)
    requires layoutsCsv != ""
    requires |Split(variantsCsv)| == |Split(layoutsCsv)| || (variantsCsv == "" && |Split(layoutsCsv)| == 1)
    ensures Encode(Fill(layoutsCsv, variantsCsv, defaultGroup), cfg)
      == KbdConfig(layoutsCsv, variantsCsv,
                   if 0 <= defaultGroup < |Split(layoutsCsv)| then defaultGroup else cfg.defaultGroup)
  {
    var f := Fill(layoutsCsv, variantsCsv, defaultGroup);
    assert LayoutIds(f) == Split(layoutsCsv);
    JoinSplit(layoutsCsv);
    if |Split(variantsCsv)| == |Split(layoutsCsv)| {
      assert VariantTexts(f) == Split(variantsCsv);
      JoinSplit(variantsCsv);
    } else {
      assert VariantTexts(f) == [""];
    }
    if 0 <= defaultGroup < |f| {
      EncodeDefault(f, cfg, defaultGroup);
    }
  }
}
