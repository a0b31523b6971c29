/**
 * The rows of the settings dialog's layout list store and the keyboard
 * configuration fields they are marshalled to. The list store has three
 * columns: the "default" toggle, the layout id and the variant id; the
 * variant cell can hold NULL.
 */
module LayoutRows {
  import opened Nullable

  datatype Row = Row(isDefault: bool, layout: string, variant: Option<string>)

  /** The layout part of the keyboard configuration: two comma lists and the default group index. */
  datatype KbdConfig = KbdConfig(layouts: string, variants: string, defaultGroup: int)

  /** The text a variant cell contributes to the variants list: NULL contributes nothing. */
  function VariantText(v: Option<string>): string
  {
    v.ValueOr("")
  }

  /** Reading element `i` of a NULL-terminated string vector: index |v| is the terminator. */
  function VectorAt(v: seq<string>, i: nat): Option<string>
    requires i <= |v|
  {
    if i < |v| then Some(v[i]) else None
  }

  function LayoutIds(rows: seq<Row>): (r: seq<string>)
    ensures |r| == |rows|
  {
    seq(|rows|, i requires 0 <= i < |rows| => rows[i].layout)
  }

  function VariantTexts(rows: seq<Row>): (r: seq<string>)
    ensures |r| == |rows|
  {
    seq(|rows|, i requires 0 <= i < |rows| => VariantText(rows[i].variant))
  }

  /** Row `d` is flagged as the default and no other row is. */
  predicate OnlyDefault(rows: seq<Row>, d: int)
  {
    && 0 <= d < |rows|
    && forall j :: 0 <= j < |rows| ==> (rows[j].isDefault <==> j == d)
  }

  /** The invariant the dialog keeps: exactly one row carries the default flag. */
  predicate ExactlyOneDefault(rows: seq<Row>)
  {
    exists d :: 0 <= d < |rows| && OnlyDefault(rows, d)
  }

  /** Two rows hold the same ids, reading a NULL variant as the empty one. */
  predicate SameIds(a: Row, b: Row)
  {
    a.layout == b.layout && VariantText(a.variant) == VariantText(b.variant)
  }

  /** Two stores show the same rows, reading a NULL variant as the empty one. */
  predicate Equivalent(a: seq<Row>, b: seq<Row>)
  {
    && |a| == |b|
    && forall i :: 0 <= i < |a| ==> a[i].isDefault == b[i].isDefault && SameIds(a[i], b[i])
  }
}
