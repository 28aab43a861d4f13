/**
 * The in-memory table the converter builds with polars: an ordered list of
 * named columns. Only the operations the converter uses are modelled: looking
 * a column up by name, `with_columns` for one expression and `drop`.
 */
module Frames {
  import opened Wrappers

  /** A column's cells, each given by its text form; `None` is a null. */
  type Cells = seq<Option<string>>

  /** A column's type and cells. */
  datatype ColumnData =
    | Native(cells: Cells)   // as the Stata reader produced it
    | Utf8(cells: Cells)     // cast to polars String
    | Float64(cells: Cells)  // the text each Float64 value was parsed from; the lossy parse itself is not modelled

  datatype Column = Column(name: string, data: ColumnData)

  type Table = seq<Column>

  /** No two columns share a name; polars refuses a frame that breaks this. */
  predicate DistinctNames(t: Table) {
    forall i, j :: 0 <= i < j < |t| ==> t[i].name != t[j].name
  }

  /** The position of the first column called `name`, or -1. */
  function IndexOf(t: Table, name: string): (k: int)
    ensures -1 <= k < |t|
    ensures k >= 0 ==> t[k].name == name
    ensures forall j :: 0 <= j < |t| && (k < 0 || j < k) ==> t[j].name != name
  {
    if t == [] then -1
    else if t[0].name == name then 0
    else
      var k := IndexOf(t[1..], name);
      if k < 0 then -1 else k + 1
  }

  /** `IndexOf` is determined by where the name first occurs. */
  lemma IndexOfIs(t: Table, name: string, k: int)
    requires -1 <= k < |t|
    requires k >= 0 ==> t[k].name == name
    requires forall j :: 0 <= j < |t| && (k < 0 || j < k) ==> t[j].name != name
    ensures IndexOf(t, name) == k
  {
    var i := IndexOf(t, name);
    if i >= 0 && k >= 0 {
      assert !(i < k) && !(k < i);
    }
  }

  /** The table has a column called `name`: `name in df.columns`. */
  predicate Has(t: Table, name: string) {
    IndexOf(t, name) >= 0
  }

  /** `pl.col(name)` evaluated on `t`: the column called `name`, if any. */
  function Get(t: Table, name: string): Option<Column> {
    var k := IndexOf(t, name);
    if k >= 0 then Some(t[k]) else None
  }

  /** In a table with distinct names, the column at position `i` is the one its name finds. */
  lemma IndexOfDistinct(t: Table, i: int)
    requires DistinctNames(t) && 0 <= i < |t|
    ensures IndexOf(t, t[i].name) == i
  {
  }

  /**
   * `df.with_columns(c)`: a column of the same name is replaced where it
   * stands; otherwise `c` is appended at the end.
   */
  function WithColumn(t: Table, c: Column): (r: Table)
    ensures Get(r, c.name) == Some(c)
    ensures forall n :: n != c.name ==> Get(r, n) == Get(t, n)
    ensures |r| == if Has(t, c.name) then |t| else |t| + 1
    ensures DistinctNames(t) ==> DistinctNames(r)
    ensures forall x :: x in r ==> x in t || x == c
    ensures forall i :: 0 <= i < |t| && t[i].name != c.name ==> r[i] == t[i]
    ensures Has(t, c.name) ==> r[IndexOf(t, c.name)] == c
    ensures !Has(t, c.name) ==> r[|t|] == c
  {
    var k := IndexOf(t, c.name);
    var r := if k >= 0 then t[k := c] else t + [c];
    IndexOfIs(r, c.name, if k >= 0 then k else |t|);
    forall n | n != c.name ensures IndexOf(r, n) == IndexOf(t, n) {
      IndexOfIs(r, n, IndexOf(t, n));
    }
    r
  }

  /** `with_columns` with a name the frame lacks appends the column at the end. */
  lemma WithColumnAppends(t: Table, c: Column)
    requires !Has(t, c.name)
    ensures WithColumn(t, c) == t + [c]
  {
  }

  /** Looking a name up in a table with one column in front. */
  lemma GetCons(c: Column, t: Table, n: string)
    ensures Get([c] + t, n) == if c.name == n then Some(c) else Get(t, n)
  {
    var r := [c] + t;
    assert r[1..] == t;
    var k := IndexOf(t, n);
    if c.name != n && k >= 0 {
      assert r[k + 1] == t[k];
    }
  }

  /** A column in front of a table with distinct names, none of them its own, keeps names distinct. */
  lemma ConsDistinct(c: Column, t: Table)
    requires DistinctNames(t)
    requires forall x :: x in t ==> x.name != c.name
    ensures DistinctNames([c] + t)
  {
    var r := [c] + t;
    forall i, j | 0 <= i < j < |r| ensures r[i].name != r[j].name {
      if i == 0 { assert r[j] in t; } else { assert r[i] == t[i - 1] && r[j] == t[j - 1]; }
    }
  }

  /** The columns of `t` not called `name`, in their order. */
  function Kept(t: Table, name: string): Table {
    if t == [] then []
    else (if t[0].name == name then [] else [t[0]]) + Kept(t[1..], name)
  }

  /** Filtering keeps every lookup but that of the name filtered out, which finds nothing. */
  lemma {:induction false} KeptLookup(t: Table, name: string)
    ensures !Has(Kept(t, name), name)
    ensures forall n :: n != name ==> Get(Kept(t, name), n) == Get(t, n)
    decreases |t|
  {
    if t != [] {
      var rest := Kept(t[1..], name);
      KeptLookup(t[1..], name);
      assert t == [t[0]] + t[1..];
      forall n ensures Get(t, n) == if t[0].name == n then Some(t[0]) else Get(t[1..], n) {
        GetCons(t[0], t[1..], n);
      }
      if t[0].name == name {
        assert Kept(t, name) == rest;
      } else {
        assert Kept(t, name) == [t[0]] + rest;
        forall n ensures Get([t[0]] + rest, n) == if t[0].name == n then Some(t[0]) else Get(rest, n) {
          GetCons(t[0], rest, n);
        }
        assert Get([t[0]] + rest, name) == Get(rest, name);
      }
    }
  }

  /** Filtering adds no column and keeps names distinct. */
  lemma {:induction false} KeptMembers(t: Table, name: string)
    ensures |Kept(t, name)| <= |t|
    ensures forall c :: c in Kept(t, name) ==> c in t
    ensures DistinctNames(t) ==> DistinctNames(Kept(t, name))
    decreases |t|
  {
    if t != [] {
      var rest := Kept(t[1..], name);
      KeptMembers(t[1..], name);
      assert forall c :: c in rest ==> c in t by {
        forall c | c in rest ensures c in t {
          var j :| 0 <= j < |t[1..]| && t[1..][j] == c;
          assert t[j + 1] == c;
        }
      }
      if t[0].name == name {
        assert Kept(t, name) == rest;
      } else {
        assert Kept(t, name) == [t[0]] + rest;
        if DistinctNames(t) {
          assert DistinctNames(t[1..]);
          forall c | c in rest ensures c.name != t[0].name {
            var j :| 0 <= j < |t| && t[j] == c;
            assert j != 0;
          }
          ConsDistinct(t[0], rest);
        }
      }
    }
  }

  /** `df.drop(name)`: every column called `name` is removed, the others keep their order, and what any other name finds is kept. */
  function Drop(t: Table, name: string): (r: Table)
    ensures r == Kept(t, name)
    ensures !Has(r, name)
    ensures forall n :: n != name ==> Get(r, n) == Get(t, n)
    ensures |r| <= |t|
    ensures DistinctNames(t) ==> DistinctNames(r)
    ensures forall c :: c in r ==> c in t
  {
    KeptLookup(t, name);
    KeptMembers(t, name);
    Kept(t, name)
  }

  /** Filtering a name the front part lacks keeps that part and filters only the rest. */
  lemma {:induction false} KeptAppendAbsent(t: Table, u: Table, name: string)
    requires forall j :: 0 <= j < |t| ==> t[j].name != name
    ensures Kept(t + u, name) == t + Kept(u, name)
    decreases |t|
  {
    if t == [] {
      assert t + u == u;
    } else {
      assert (t + u)[0] == t[0] && (t + u)[1..] == t[1..] + u;
      KeptAppendAbsent(t[1..], u, name);
      assert t == [t[0]] + t[1..];
    }
  }

  /** Dropping a name the front part lacks keeps that part, in order, and drops only from the rest. */
  lemma DropAppendAbsent(t: Table, u: Table, name: string)
    requires !Has(t, name)
    ensures Drop(t + u, name) == t + Drop(u, name)
  {
    KeptAppendAbsent(t, u, name);
  }
}
