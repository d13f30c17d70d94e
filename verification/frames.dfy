/**
 * The tabular collaborator: a table reduced to its column labels and its
 * free-form metadata bag (`DataFrame.attrs`). Data, indexes and
 * hierarchical labels are not part of this model.
 */
module Frames {
  import opened OrderedDicts

  /** A column label: a string, or some other hashable value (an integer, a tuple). */
  datatype Label = Str(name: string) | Other(id: int)

  predicate AllStrings(columns: seq<Label>)
  {
    forall i :: 0 <= i < |columns| ==> columns[i].Str?
  }

  /** The names of columns that are all strings. */
  function Names(columns: seq<Label>): (names: seq<string>)
    requires AllStrings(columns)
    ensures |names| == |columns|
    ensures forall i :: 0 <= i < |columns| ==> columns[i] == Str(names[i])
  {
    seq(|columns|, i requires 0 <= i < |columns| => columns[i].name)
  }

  /** How a bulk rename treats one label: a label that is a key of the mapping takes its value. */
  function RenameLabel(col: Label, mapping: map<string, string>): Label
  {
    match col
    case Str(s) => if s in mapping then Str(mapping[s]) else col
    case Other(_) => col
  }

  /** A bulk rename of columns by an old-to-new mapping; keys that name no column are ignored. */
  function RenameLabels(columns: seq<Label>, mapping: map<string, string>): (r: seq<Label>)
    ensures |r| == |columns|
    ensures forall i :: 0 <= i < |columns| ==> r[i] == RenameLabel(columns[i], mapping)
  {
    seq(|columns|, i requires 0 <= i < |columns| => RenameLabel(columns[i], mapping))
  }

  class DataFrame {
    var columns: seq<Label>
    /** The metadata bag; the alias manager keeps its rename record here. */
    var attrs: map<string, Entries>

    constructor (columns: seq<Label>, attrs: map<string, Entries>)
      ensures this.columns == columns && this.attrs == attrs
    {
      this.columns := columns;
      this.attrs := attrs;
    }

    /** `df.copy()`: an independent table with the same labels and its own copy of the metadata. */
    method Copy() returns (t: DataFrame)
      ensures fresh(t)
      ensures t.columns == columns && t.attrs == attrs
    {
      t := new DataFrame(columns, attrs);
    }

    /** `df.rename(columns=mapping, inplace=True)`: relabels the columns and keeps the metadata. */
    method Rename(mapping: map<string, string>)
      modifies this
      ensures columns == RenameLabels(old(columns), mapping)
      ensures attrs == old(attrs)
    {
      columns := RenameLabels(columns, mapping);
    }
  }
}
