/** flowvis's mesh_data_call: a map from data-set names to shared data sets,
    where a null entry registers a name without data. */
module MeshData {
  import opened Wrappers

  /** std::string's operator<: lexicographic by character code, a proper
      prefix coming first. */
  predicate StringLess(a: string, b: string) {
    |b| > 0 && (|a| == 0 || a[0] < b[0] || (a[0] == b[0] && StringLess(a[1..], b[1..])))
  }

  lemma {:induction false} StringLessIrreflexive(a: string)
    ensures !StringLess(a, a)
  {
    if |a| > 0 {
      StringLessIrreflexive(a[1..]);
    }
  }

  lemma {:induction false} StringLessTransitive(a: string, b: string, c: string)
    requires StringLess(a, b) && StringLess(b, c)
    ensures StringLess(a, c)
  {
    if |a| > 0 && a[0] == b[0] && b[0] == c[0] {
      StringLessTransitive(a[1..], b[1..], c[1..]);
    }
  }

  lemma {:induction false} StringLessTotal(a: string, b: string)
    requires a != b
    ensures StringLess(a, b) || StringLess(b, a)
  {
    if |a| > 0 && |b| > 0 && a[0] == b[0] {
      assert a == [a[0]] + a[1..] && b == [b[0]] + b[1..];
      StringLessTotal(a[1..], b[1..]);
    }
  }

  /** Names in strictly ascending order: sorted, every name once. */
  ghost predicate StrictlySorted(names: seq<string>) {
    forall i, j :: 0 <= i < j < |names| ==> StringLess(names[i], names[j])
  }

  /** The least name of a non-empty finite set. */
  method Least(names: set<string>) returns (m: string)
    requires names != {}
    ensures m in names
    ensures forall n :: n in names && n != m ==> StringLess(m, n)
  {
    m :| m in names;
    var rest := names - {m};
    while rest != {}
      invariant m in names && rest <= names
      invariant forall n :: n in names - rest && n != m ==> StringLess(m, n)
      decreases |rest|
    {
      var x :| x in rest;
      if StringLess(x, m) {
        forall n | n in names - rest && n != x
          ensures StringLess(x, n)
        {
          if n != m {
            StringLessTransitive(x, m, n);
          }
        }
        m := x;
      } else if x != m {
        StringLessTotal(x, m);
      }
      rest := rest - {x};
    }
  }

  /** data_set: the values of one quantity on the mesh, with the transfer
      function used to display them. */
  class DataSet {
    var transferFunction: string
    var transferFunctionDirty: bool
    var minValue: Float
    var maxValue: Float
    var data: seq<Float>

    constructor (transferFunction: string, transferFunctionDirty: bool, minValue: Float, maxValue: Float, data: seq<Float>)
      ensures this.transferFunction == transferFunction && this.transferFunctionDirty == transferFunctionDirty
      ensures this.minValue == minValue && this.maxValue == maxValue && this.data == data
    {
      this.transferFunction := transferFunction;
      this.transferFunctionDirty := transferFunctionDirty;
      this.minValue := minValue;
      this.maxValue := maxValue;
      this.data := data;
    }
  }

  /** The map after set_data(name, data): a non-null data set is stored; a
      null one only registers a name that is not there yet. */
  function Stored(m: map<string, DataSet?>, name: string, data: DataSet?): map<string, DataSet?> {
    if name !in m || data != null then m[name := data] else m
  }

  /** get_data on a map: the stored data set, or null for a missing name. */
  function Lookup(m: map<string, DataSet?>, name: string): (r: DataSet?)
    ensures name !in m ==> r == null
    ensures name in m ==> r == m[name]
    ensures r != null ==> name in m && m[name] == r
  {
    if name in m then m[name] else null
  }

  /** Storing a non-null data set makes get_data return it. */
  lemma {:induction false} StoredIsFound(m: map<string, DataSet?>, name: string, data: DataSet?)
    requires data != null
    ensures Lookup(Stored(m, name, data), name) == data
  {
  }

  /** A null data set never replaces an existing entry. */
  lemma {:induction false} NullNeverOverwrites(m: map<string, DataSet?>, name: string)
    requires name in m
    ensures Stored(m, name, null) == m
  {
  }

  /** A null data set registers a new name, which get_data maps to null. */
  lemma {:induction false} NullRegistersName(m: map<string, DataSet?>, name: string)
    requires name !in m
    ensures Stored(m, name, null).Keys == m.Keys + {name}
    ensures Lookup(Stored(m, name, null), name) == null
  {
  }

  /** set_data leaves every other name as it was. */
  lemma {:induction false} StoredKeepsOthers(m: map<string, DataSet?>, name: string, data: DataSet?, other: string)
    requires other != name
    ensures other in Stored(m, name, data) <==> other in m
    ensures Lookup(Stored(m, name, data), other) == Lookup(m, other)
  {
  }

  /** mesh_data_call: the named data sets and the data hash the call carries. */
  class MeshDataCall {
    var dataSets: map<string, DataSet?>
    var dataHash: nat

    constructor ()
      ensures dataSets == map[] && dataHash == 0
    {
      dataSets := map[];
      dataHash := 0;
    }

    /** set_data, with the data set defaulting to null. */
    method SetData(name: string, data: DataSet? := null)
      modifies this`dataSets
      ensures dataSets == Stored(old(dataSets), name, data)
    {
      if name !in dataSets || data != null {
        dataSets := dataSets[name := data];
      }
    }

    /** get_data: a lookup that does not insert the name. */
    function GetData(name: string): (r: DataSet?)
      reads this
      ensures r == Lookup(dataSets, name)
    {
      Lookup(dataSets, name)
    }

    /** get_data_sets: every stored name exactly once, in the map's ascending
        key order. */
    method GetDataSets() returns (names: seq<string>)
      ensures StrictlySorted(names)
      ensures forall n :: n in names <==> n in dataSets
    {
      var remaining := dataSets.Keys;
      names := [];
      while remaining != {}
        invariant remaining <= dataSets.Keys
        invariant forall n :: n in dataSets ==> (n in names <==> n !in remaining)
        invariant forall n :: n in names ==> n in dataSets
        invariant StrictlySorted(names)
        invariant forall i, n :: 0 <= i < |names| && n in remaining ==> StringLess(names[i], n)
        decreases |remaining|
      {
        var m := Least(remaining);
        names := names + [m];
        remaining := remaining - {m};
      }
    }
  }
}
