// The column-oriented table the facade reads through `df.length`,
// `df.get(name).iloc(i)` and `df.columns`, and the `string | string[]`
// selector that groupBy and the aggregation wrappers accept.

module Tables {
  import opened Values
  import opened Objects

  /** A row record, as `materializeGrouped` and `sortValues` build them. */
  type Record = Obj<Value>

  datatype Column = Column(name: string, values: seq<Value>)

  /** A table: named columns, every one `length` cells long, names distinct. */
  datatype Table = Table(columns: seq<Column>, length: nat) {

    predicate Valid()
    {
      && (forall i :: 0 <= i < |columns| ==> |columns[i].values| == length)
      && (forall i, j :: 0 <= i < j < |columns| ==> columns[i].name != columns[j].name)
    }

    predicate HasColumn(name: string)
    {
      exists i :: 0 <= i < |columns| && columns[i].name == name
    }

    /** `df.get(name)`: the cells of the column called `name`. */
    function Get(name: string): (vs: seq<Value>)
      requires Valid() && HasColumn(name)
      ensures |vs| == length
      ensures exists i :: 0 <= i < |columns| && columns[i].name == name && columns[i].values == vs
    {
      var i :| 0 <= i < |columns| && columns[i].name == name;
      columns[i].values
    }
  }

  /** A column selector: one name or a list of names. */
  datatype KeySelector = One(name: string) | Many(names: seq<string>)

  /** `ensureArray`: a single name becomes a one-element list, a list stays as it is. */
  function EnsureArray(sel: KeySelector): (r: seq<string>)
    ensures sel.One? ==> r == [sel.name]
    ensures sel.Many? ==> r == sel.names
  {
    match sel
    case One(n) => [n]
    case Many(ns) => ns
  }
}
