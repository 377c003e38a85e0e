/** The Arrow builders the kernels append to, and the arrays they make: a list array is one flat
    value array cut by offsets (variable-size list layout of the Arrow columnar format). */
module Arrow {
  import opened GoStrings

  /** array.StringBuilder, BooleanBuilder and TimestampBuilder: one nullable cell per row. */
  class Builder<T> {
    var cells: seq<Option<T>>

    constructor ()
      ensures cells == []
    {
      cells := [];
    }

    method AppendNull()
      modifies this
      ensures cells == old(cells) + [None]
    {
      cells := cells + [None];
    }

    method Append(value: T)
      modifies this
      ensures cells == old(cells) + [Some(value)]
    {
      cells := cells + [Some(value)];
    }
  }

  datatype ListArray<T> = ListArray(valid: seq<bool>, offsets: seq<int>, values: seq<T>)

  predicate IsListArray<T>(a: ListArray<T>) {
    && |a.offsets| == |a.valid| + 1
    && a.offsets[0] == 0 && a.offsets[|a.valid|] == |a.values|
    && (forall i, j | 0 <= i <= j <= |a.valid| :: a.offsets[i] <= a.offsets[j])
    && (forall i | 0 <= i < |a.valid| :: !a.valid[i] ==> a.offsets[i + 1] == a.offsets[i])
  }

  /** Row i of a list array: null, or its slice of the values. */
  function Row<T>(a: ListArray<T>, i: nat): Option<seq<T>>
    requires IsListArray(a) && i < |a.valid|
  {
    if a.valid[i] then Some(a.values[a.offsets[i]..a.offsets[i + 1]]) else None
  }

  function Rows<T>(a: ListArray<T>): seq<Option<seq<T>>>
    requires IsListArray(a)
  {
    seq(|a.valid|, i requires 0 <= i < |a.valid| => Row(a, i))
  }

  /** The values of all rows in order; a null row has none. */
  function Flatten<T>(rows: seq<Option<seq<T>>>): seq<T> {
    if rows == [] then []
    else Flatten(rows[..|rows| - 1]) + (match rows[|rows| - 1] case Some(r) => r case None => [])
  }

  /** array.ListBuilder with its value builder: each row records where its values start. */
  class ListBuilder<T> {
    var valid: seq<bool>
    var starts: seq<int>
    var values: seq<T>

    /** The array NewArray would make now. */
    ghost function Made(): ListArray<T>
      reads this
    {
      ListArray(valid, starts + [|values|], values)
    }

    ghost predicate Valid()
      reads this
    {
      IsListArray(Made())
    }

    ghost function Contents(): seq<Option<seq<T>>>
      requires Valid()
      reads this
    {
      Rows(Made())
    }

    constructor ()
      ensures Valid() && Contents() == []
    {
      valid, starts, values := [], [], [];
    }

    method AppendNull()
      requires Valid()
      modifies this
      ensures Valid() && Contents() == old(Contents()) + [None]
    {
      ghost var a := Made();
      valid := valid + [false];
      starts := starts + [|values|];
      RowAdded(a, Made());
    }

    method Append()
      requires Valid()
      modifies this
      ensures Valid() && Contents() == old(Contents()) + [Some([])]
    {
      ghost var a := Made();
      valid := valid + [true];
      starts := starts + [|values|];
      RowAdded(a, Made());
    }

    /** The value builder's Append: the value joins the last row. */
    method AppendValue(value: T)
      requires Valid() && Contents() != [] && Contents()[|Contents()| - 1].Some?
      modifies this
      ensures Valid()
      ensures var was := old(Contents()); var n := |was| - 1;
              Contents() == was[..n] + [Some(was[n].value + [value])]
    {
      ghost var a := Made();
      values := values + [value];
      ValueAdded(a, Made(), value);
    }

    method NewArray() returns (a: ListArray<T>)
      requires Valid()
      ensures IsListArray(a) && Rows(a) == Contents()
    {
      a := ListArray(valid, starts + [|values|], values);
    }
  }

  lemma RowAdded<T>(a: ListArray<T>, b: ListArray<T>)
    requires IsListArray(a) && |b.valid| == |a.valid| + 1
    requires b.valid[..|a.valid|] == a.valid && b.offsets == a.offsets + [|a.values|] && b.values == a.values
    ensures IsListArray(b)
    ensures Rows(b) == Rows(a) + [if b.valid[|a.valid|] then Some([]) else None]
  {
    var n := |a.valid|;
    forall i | 0 <= i <= n
      ensures Rows(b)[i] == (Rows(a) + [if b.valid[n] then Some([]) else None])[i]
    {
      if i < n {
        assert b.valid[i] == b.valid[..n][i] == a.valid[i];
        assert Row(b, i) == Row(a, i);
      } else {
        assert b.values[b.offsets[n]..b.offsets[n + 1]] == [];
      }
    }
  }

  /** b is a with value appended to the values of its last row. */
  ghost predicate ExtendsLast<T>(a: ListArray<T>, b: ListArray<T>, value: T) {
    && a.valid != [] && a.valid[|a.valid| - 1] && |a.offsets| == |a.valid| + 1
    && b.valid == a.valid && b.values == a.values + [value]
    && b.offsets == a.offsets[..|a.valid|] + [|b.values|]
  }

  lemma StillListArray<T>(a: ListArray<T>, b: ListArray<T>, value: T)
    requires IsListArray(a) && ExtendsLast(a, b, value)
    ensures IsListArray(b)
  {
  }

  lemma EarlierRow<T>(a: ListArray<T>, b: ListArray<T>, value: T, i: nat)
    requires IsListArray(a) && IsListArray(b) && ExtendsLast(a, b, value) && i < |a.valid| - 1
    ensures Row(b, i) == Row(a, i)
  {
    assert b.offsets[i] == a.offsets[i] && b.offsets[i + 1] == a.offsets[i + 1];
    assert a.offsets[i + 1] <= |a.values|;
    assert b.values[a.offsets[i]..a.offsets[i + 1]] == a.values[a.offsets[i]..a.offsets[i + 1]];
  }

  lemma LastRow<T>(a: ListArray<T>, b: ListArray<T>, value: T)
    requires IsListArray(a) && IsListArray(b) && ExtendsLast(a, b, value)
    ensures var n := |a.valid| - 1; Row(b, n) == Some(Row(a, n).value + [value])
  {
    var n := |a.valid| - 1;
    assert b.offsets[n] == a.offsets[n] && a.offsets[n + 1] == |a.values|;
    assert b.values[a.offsets[n]..|b.values|] == a.values[a.offsets[n]..|a.values|] + [value];
  }

  lemma ValueAdded<T>(a: ListArray<T>, b: ListArray<T>, value: T)
    requires IsListArray(a) && ExtendsLast(a, b, value)
    ensures IsListArray(b)
    ensures var n := |a.valid| - 1;
            Rows(b) == Rows(a)[..n] + [Some(Row(a, n).value + [value])]
  {
    StillListArray(a, b, value);
    LastRow(a, b, value);
    forall i | 0 <= i < |a.valid| - 1
      ensures Row(b, i) == Row(a, i)
    {
      EarlierRow(a, b, value, i);
    }
  }

  /** Cutting is faithful: the flat values are the rows' values in order, nothing more. */
  lemma ValuesAreRows<T>(a: ListArray<T>)
    requires IsListArray(a)
    ensures Flatten(Rows(a)) == a.values
  {
    PrefixIsRows(a, |a.valid|);
    assert Rows(a)[..|a.valid|] == Rows(a);
    assert a.values[..|a.values|] == a.values;
  }

  lemma {:induction false} PrefixIsRows<T>(a: ListArray<T>, k: nat)
    requires IsListArray(a) && k <= |a.valid|
    ensures 0 <= a.offsets[k] <= |a.values|
    ensures Flatten(Rows(a)[..k]) == a.values[..a.offsets[k]]
  {
    assert a.offsets[0] <= a.offsets[k] <= a.offsets[|a.valid|];
    if k > 0 {
      PrefixIsRows(a, k - 1);
      assert Rows(a)[..k][..k - 1] == Rows(a)[..k - 1];
      assert a.offsets[k - 1] <= a.offsets[k];
    }
  }
}
