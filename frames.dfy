/** Data frames as the joint analysis uses them: named real-valued columns of
    equal height. `Table` is a frame as a value; `Frame` is a frame object that
    is updated in place by column assignment. */
module Frames {
  import opened Wrappers

  type Name = string

  /** No name occurs twice. */
  predicate Distinct(names: seq<Name>)
  {
    forall a, b :: 0 <= a < b < |names| ==> names[a] != names[b]
  }

  /** Every name of `sub` is one of `names`. */
  predicate Covers(names: seq<Name>, sub: seq<Name>)
  {
    forall k :: 0 <= k < |sub| ==> sub[k] in names
  }

  /** Position of a name in a list of distinct names. */
  function IndexOf(names: seq<Name>, x: Name): (k: nat)
    requires x in names
    ensures k < |names| && names[k] == x
  {
    if names[0] == x then 0 else 1 + IndexOf(names[1..], x)
  }

  /** A data frame with a default integer row index: ordered column names and,
      for each name, a column of `height` values. */
  datatype Table = Table(columns: seq<Name>, cells: map<Name, seq<real>>, height: nat) {
    predicate Valid()
    {
      && Distinct(columns)
      && cells.Keys == (set c | c in columns)
      && (forall c :: c in cells ==> |cells[c]| == height)
    }
  }

  /** `t[names]`: the frame of the named columns, in the order asked for;
      a KeyError when one of them is missing. */
  function Select(t: Table, names: seq<Name>): (r: Result<Table, Exception>)
    requires t.Valid() && Distinct(names)
    ensures r.Ok? <==> Covers(t.columns, names)
    ensures r.Err? ==> r.error == KeyError
    ensures r.Ok? ==> r.value.Valid() && r.value.columns == names && r.value.height == t.height
    ensures r.Ok? ==> forall c {:trigger r.value.cells[c]} :: c in names ==> c in r.value.cells && r.value.cells[c] == t.cells[c]
  {
    if Covers(t.columns, names) then
      Ok(Table(names, map c | c in names :: t.cells[c], t.height))
    else
      Err(KeyError)
  }

  /** `t[names] = src[names]` for frames with the same row index: the named
      columns take their values from `src`, row by row; every other column,
      the column order and the height stay as they were. */
  function Overwrite(t: Table, names: seq<Name>, src: Table): (r: Table)
    requires t.Valid() && src.Valid() && src.height == t.height
    requires Covers(t.columns, names) && Covers(src.columns, names)
    ensures r.Valid() && r.columns == t.columns && r.height == t.height
    ensures forall c {:trigger r.cells[c]} :: c in names ==> r.cells[c] == src.cells[c]
    ensures forall c {:trigger r.cells[c]} :: c in t.columns && c !in names ==> r.cells[c] == t.cells[c]
  {
    Table(t.columns, map c | c in t.cells :: if c in names then src.cells[c] else t.cells[c], t.height)
  }

  /** A data frame object; column assignment updates it in place. */
  class Frame {
    var columns: seq<Name>
    var cells: map<Name, seq<real>>
    var height: nat

    /** The frame's current contents as a value. */
    function View(): Table
      reads this
    {
      Table(columns, cells, height)
    }

    ghost predicate Valid()
      reads this
    {
      View().Valid()
    }

    /** `t.copy()`: a new frame object holding the same contents as `t`. */
    constructor Copy(t: Table)
      requires t.Valid()
      ensures Valid() && View() == t
    {
      columns := t.columns;
      cells := t.cells;
      height := t.height;
    }

    /** `self[names] = src[names]`. */
    method AssignColumns(names: seq<Name>, src: Table)
      requires Valid() && src.Valid() && src.height == height
      requires Covers(columns, names) && Covers(src.columns, names)
      modifies this
      ensures Valid() && View() == Overwrite(old(View()), names, src)
    {
      cells := map c | c in cells :: if c in names then src.cells[c] else cells[c];
    }
  }
}
