/**
 * MyBatis-Plus's QueryWrapper as the admin controllers use it: an object
 * that collects WHERE conditions and ORDER BY DESC columns one call at a
 * time. A row is seen through its column values; a condition list holds of
 * a row when every condition does (the conditions are joined with AND).
 */
module Query {
  import opened Strings

  /** A column value as the store returns it. */
  datatype Value = IntVal(i: int) | StrVal(s: string) | Null

  /** `eq(column, value)` and `like(column, q)`. */
  datatype Condition = Eq(column: string, value: Value) | Like(column: string, pattern: string)

  /** A row as a map from column names to values. */
  type Row = string -> Value

  /**
   * `column = value`, and `column LIKE '%q%'`; NULL is equal to nothing and
   * LIKE nothing.
   */
  predicate Holds(c: Condition, row: Row)
  {
    match c
    case Eq(column, v) => v != Null && row(column) == v
    case Like(column, q) => row(column).StrVal? && Contains(row(column).s, q)
  }

  predicate Satisfies(conds: seq<Condition>, row: Row)
  {
    forall i :: 0 <= i < |conds| ==> Holds(conds[i], row)
  }

  /** Each condition the wrapper adds narrows the rows by exactly that condition. */
  lemma SatisfiesAppend(conds: seq<Condition>, c: Condition, row: Row)
    ensures Satisfies(conds + [c], row) <==> Satisfies(conds, row) && Holds(c, row)
  {
    var all := conds + [c];
    if Satisfies(conds, row) && Holds(c, row) {
      forall i | 0 <= i < |all| ensures Holds(all[i], row) {
        if i < |conds| {
          assert all[i] == conds[i];
        }
      }
    }
    if Satisfies(all, row) {
      assert all[|conds|] == c;
      forall i | 0 <= i < |conds| ensures Holds(conds[i], row) {
        assert all[i] == conds[i];
      }
    }
  }

  /** Conditions joined with AND: a row meets two lists exactly when it meets each. */
  lemma SatisfiesConcat(a: seq<Condition>, b: seq<Condition>, row: Row)
    ensures Satisfies(a + b, row) <==> Satisfies(a, row) && Satisfies(b, row)
  {
    var all := a + b;
    if Satisfies(a, row) && Satisfies(b, row) {
      forall i | 0 <= i < |all| ensures Holds(all[i], row) {
        if i < |a| {
          assert all[i] == a[i];
        } else {
          assert all[i] == b[i - |a|];
        }
      }
    }
    if Satisfies(all, row) {
      forall i | 0 <= i < |a| ensures Holds(a[i], row) {
        assert all[i] == a[i];
      }
      forall i | 0 <= i < |b| ensures Holds(b[i], row) {
        assert all[|a| + i] == b[i];
      }
    }
  }

  class QueryWrapper {
    var conditions: seq<Condition>
    /** The ORDER BY ... DESC columns, most significant first. */
    var descending: seq<string>

    constructor ()
      ensures conditions == [] && descending == []
    {
      conditions := [];
      descending := [];
    }

    method Eq(column: string, value: Value)
      modifies this
      ensures conditions == old(conditions) + [Condition.Eq(column, value)]
      ensures descending == old(descending)
    {
      conditions := conditions + [Condition.Eq(column, value)];
    }

    method Like(column: string, q: string)
      modifies this
      ensures conditions == old(conditions) + [Condition.Like(column, q)]
      ensures descending == old(descending)
    {
      conditions := conditions + [Condition.Like(column, q)];
    }

    method OrderByDesc(column: string)
      modifies this
      ensures descending == old(descending) + [column]
      ensures conditions == old(conditions)
    {
      descending := descending + [column];
    }
  }
}
