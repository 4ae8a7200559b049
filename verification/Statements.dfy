// The two loops that turn a message into a statement: one lists its columns, one binds its parameters.

module Statements {
  datatype Value = Null | IntValue(i: int) | TextValue(text: string)

  /** A field that is set in a message; fields come in the order of their numbers. */
  datatype Field = Singular(name: string, value: Value) | Repeated(name: string, ids: seq<int>)

  /** The columns of the root statement: the names of the singular fields that are set. */
  function Columns(fields: seq<Field>): (names: seq<string>)
    ensures |names| <= |fields|
  {
    if fields == [] then []
    else
      var n := |fields| - 1;
      Columns(fields[..n]) + if fields[n].Singular? then [fields[n].name] else []
  }

  /** The set fields, numbered from 1. */
  function Numbered(fields: seq<Field>, p: int): Field
    requires 1 <= p <= |fields|
  {
    fields[p - 1]
  }

  /** The parameters that get a value: the one numbered like the field's place among all set fields. */
  function Bound(fields: seq<Field>): map<int, Value> {
    map p | 1 <= p <= |fields| && Numbered(fields, p).Singular? :: Numbered(fields, p).value
  }

  /** A parameter that is never bound is NULL. */
  function Parameter(bound: map<int, Value>, p: int): Value {
    if p in bound then bound[p] else Null
  }

  /** The place of field `p` among the columns; its placeholder is one more. */
  function Place(fields: seq<Field>, p: nat): (c: nat)
    requires p <= |fields|
    ensures c <= p
  {
    |Columns(fields[..p])|
  }

  // ---- The loops -----------------------------------------------------------------------------

  method ListColumns(fields: seq<Field>) returns (names: seq<string>)
    ensures names == Columns(fields)
  {
    names := [];
    for k := 0 to |fields|
      invariant names == Columns(fields[..k])
    {
      assert fields[..k + 1][..k] == fields[..k];
      if fields[k].Singular? {
        names := names + [fields[k].name];
      }
    }
    assert fields[..|fields|] == fields;
  }

  /** Bind every singular field; `next` is the number after the last field, where an UPDATE binds its id. */
  method BindFromFields(fields: seq<Field>) returns (bound: map<int, Value>, next: int)
    ensures bound == Bound(fields) && next == |fields| + 1
  {
    bound, next := map[], 1;
    for k := 0 to |fields|
      invariant next == k + 1 && bound == Bound(fields[..k])
    {
      if fields[k].Singular? {
        bound := bound[next := fields[k].value];
      }
      next := next + 1;
    }
    assert fields[..|fields|] == fields;
  }

  // ---- Alignment -----------------------------------------------------------------------------

  /** No repeated field that is set precedes a singular one. */
  predicate SingularFirst(fields: seq<Field>) {
    forall q, p :: 0 <= q < p < |fields| && fields[p].Singular? ==> fields[q].Singular?
  }

  predicate AllSingular(fields: seq<Field>) {
    forall q :: 0 <= q < |fields| ==> fields[q].Singular?
  }

  predicate HasValues(fields: seq<Field>) {
    forall p :: 0 <= p < |fields| && fields[p].Singular? ==> fields[p].value != Null
  }

  /** The column of field `p` is given the field's own value. */
  predicate Stored(fields: seq<Field>, p: nat)
    requires p < |fields| && fields[p].Singular?
  {
    Parameter(Bound(fields), Place(fields, p) + 1) == fields[p].value
  }

  lemma {:induction false} PlaceIsIndex(fields: seq<Field>, p: nat)
    requires p <= |fields|
    ensures Place(fields, p) == p <==> AllSingular(fields[..p])
    decreases p
  {
    if p > 0 {
      PlaceIsIndex(fields, p - 1);
      assert fields[..p][..p - 1] == fields[..p - 1];
      assert AllSingular(fields[..p]) <==> AllSingular(fields[..p - 1]) && fields[p - 1].Singular? by {
        assert fields[..p] == fields[..p - 1] + [fields[p - 1]];
      }
    }
  }

  lemma {:induction false} ColumnAt(fields: seq<Field>, p: nat, n: nat)
    requires p < n <= |fields| && fields[p].Singular?
    ensures Place(fields, p) < |Columns(fields[..n])| && Columns(fields[..n])[Place(fields, p)] == fields[p].name
    decreases n
  {
    assert fields[..n][..n - 1] == fields[..n - 1];
    if p < n - 1 {
      ColumnAt(fields, p, n - 1);
    }
  }

  /** The first repeated field, if a singular one comes after it. */
  lemma FirstRepeated(fields: seq<Field>, p: nat) returns (f: nat)
    requires p < |fields| && !AllSingular(fields[..p])
    ensures f < p && fields[f].Repeated? && AllSingular(fields[..f])
  {
    f := 0;
    while f < p && fields[f].Singular?
      invariant 0 <= f <= p && AllSingular(fields[..f])
    {
      f := f + 1;
    }
  }

  lemma NextSingular(fields: seq<Field>, f: nat, p: nat) returns (q: nat)
    requires f < p < |fields| && fields[f].Repeated? && fields[p].Singular?
    ensures f < q <= p && fields[q].Singular? && Place(fields, q) == Place(fields, f)
  {
    q := f + 1;
    assert fields[..f + 1][..f] == fields[..f];
    while fields[q].Repeated?
      invariant f < q <= p && Place(fields, q) == Place(fields, f)
      decreases p - q
    {
      assert fields[..q + 1][..q] == fields[..q];
      q := q + 1;
    }
  }

  /**
   * Binding alignment: every column gets its own field's value if and only if no repeated field that is
   * set precedes a singular one. Otherwise the first singular field after a repeated one stores NULL.
   */
  lemma BindingIsAligned(fields: seq<Field>)
    requires HasValues(fields)
    ensures (forall p :: 0 <= p < |fields| && fields[p].Singular? ==> Stored(fields, p)) <==> SingularFirst(fields)
  {
    if SingularFirst(fields) {
      forall p | 0 <= p < |fields| && fields[p].Singular? ensures Stored(fields, p) {
        PlaceIsIndex(fields, p);
      }
    } else {
      var q0, p :| 0 <= q0 < p < |fields| && fields[p].Singular? && !fields[q0].Singular?;
      assert fields[..p][q0] == fields[q0];
      var f := FirstRepeated(fields, p);
      var q := NextSingular(fields, f, p);
      PlaceIsIndex(fields, f);
      assert !Stored(fields, q);
    }
  }

  /** The placeholder of an UPDATE's WHERE is the one the id is bound to if and only if nothing repeated is set. */
  lemma WhereIsAligned(fields: seq<Field>)
    ensures |Columns(fields)| + 1 == |fields| + 1 <==> AllSingular(fields)
  {
  }

  /** With repeated fields only after the singular ones, such a WHERE compares with NULL and selects no row. */
  lemma WhereIsNull(fields: seq<Field>)
    requires SingularFirst(fields) && !AllSingular(fields)
    ensures Parameter(Bound(fields), |Columns(fields)| + 1) == Null
  {
    var q :| 0 <= q < |fields| && !fields[q].Singular?;
    ColumnsStop(fields, q);
  }

  /** What the WHERE of an UPDATE is given when `v` is bound to the number after all set fields. */
  lemma WhereSelects(fields: seq<Field>, v: Value)
    requires SingularFirst(fields)
    ensures Parameter(Bound(fields)[|fields| + 1 := v], |Columns(fields)| + 1) ==
            if AllSingular(fields) then v else Null
  {
    if AllSingular(fields) {
      PlaceIsIndex(fields, |fields|);
      assert fields[..|fields|] == fields;
    } else {
      var q :| 0 <= q < |fields| && !fields[q].Singular?;
      ColumnsStop(fields, q);
    }
  }

  lemma {:induction false} ColumnsStop(fields: seq<Field>, q: nat)
    requires SingularFirst(fields) && q < |fields| && fields[q].Repeated?
    ensures |Columns(fields)| <= q && fields[|Columns(fields)|].Repeated?
  {
    var n := |fields| - 1;
    var shorter := fields[..n];
    if q < n {
      ColumnsStop(shorter, q);
    } else {
      assert fields[..n][..n] == fields[..n];
      if !AllSingular(shorter) {
        var p :| 0 <= p < n && !shorter[p].Singular?;
        ColumnsStop(shorter, p);
      } else {
        PlaceIsIndex(fields, n);
      }
    }
  }

  // ---- What a statement assigns --------------------------------------------------------------

  /** The statement gives the column `name` the value `v`. */
  predicate Assigns(fields: seq<Field>, name: string, v: Value) {
    exists p :: 0 <= p < |Columns(fields)| && Columns(fields)[p] == name && Parameter(Bound(fields), p + 1) == v
  }

  lemma {:induction false} ColumnsOfSingular(fields: seq<Field>)
    requires AllSingular(fields)
    ensures |Columns(fields)| == |fields| && forall p :: 0 <= p < |fields| ==> Columns(fields)[p] == fields[p].name
  {
    if fields != [] {
      ColumnsOfSingular(fields[..|fields| - 1]);
    }
  }

  lemma ColumnsOfRepeated(fields: seq<Field>, last: Field)
    requires last.Repeated?
    ensures Columns(fields + [last]) == Columns(fields)
  {
    assert (fields + [last])[..|fields|] == fields;
  }

  /** With singular fields first, every column is assigned its own field's value and there are no others. */
  lemma AssignsIff(plain: seq<Field>, last: seq<Field>, name: string, v: Value)
    requires AllSingular(plain) && (last == [] || (|last| == 1 && last[0].Repeated?))
    ensures Assigns(plain + last, name, v) <==> Singular(name, v) in plain
  {
    ColumnsOfSingular(plain);
    if last != [] {
      ColumnsOfRepeated(plain, last[0]);
      assert plain + last == plain + [last[0]];
    } else {
      assert plain + last == plain;
    }
    forall p | 0 <= p < |plain| ensures Parameter(Bound(plain + last), p + 1) == plain[p].value {
      assert Numbered(plain + last, p + 1) == plain[p];
    }
    if Singular(name, v) in plain {
      var p :| 0 <= p < |plain| && plain[p] == Singular(name, v);
      assert Columns(plain + last)[p] == name;
    }
  }
}
