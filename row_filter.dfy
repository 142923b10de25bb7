/** The row filter of the XML reader (`RowMatchesConditions`): the
    conditionals of a mapping, checked in order against a decoded row.  Only
    three operators are implemented; the two ordering operators throw and
    every other operator lets the row through. */
module RowFilter {
  import opened Wrappers
  import opened Model
  import Strings

  const LessThanMessage := "can not do a 'Less Than' comparison of items from XML"
  const GreaterThanMessage := "can not do a 'Greater Than' comparison of items from XML"

  /** Why checking a row threw: the column is not in the row
      (`KeyNotFoundException`), its value is a C# `null` whose `ToString` is
      called (`NullReferenceException`), or an ordering operator was used. */
  datatype FilterError = KeyNotFound(key: string) | NullValue(key: string) | Unsupported(message: string)

  /** `row[key].ToString()`: the null marker reads as "". */
  function CellText(row: Row, key: string): (r: Result<string, FilterError>)
    ensures r.Ok? <==> HasKey(row, key) && Get(row, key) != Null
    ensures r.Ok? ==> r.value == AsText(Get(row, key))
  {
    if !HasKey(row, key) then Err(KeyNotFound(key))
    else match Get(row, key)
      case Null => Err(NullValue(key))
      case DbNull => Ok("")
      case Str(t) => Ok(t)
  }

  /** One conditional against the row. */
  function Check(row: Row, c: Conditional): Result<bool, FilterError> {
    match c.op
    case EqualTo =>
      var t := CellText(row, c.sourceColumn);
      if t.Err? then Err(t.error) else Ok(t.value == c.condition)
    case DifferentFrom =>
      var t := CellText(row, c.sourceColumn);
      if t.Err? then Err(t.error) else Ok(t.value != c.condition)
    case Contains =>
      var t := CellText(row, c.sourceColumn);
      if t.Err? then Err(t.error) else Ok(Strings.Contains(t.value, c.condition))
    case LessThan => Err(Unsupported(LessThanMessage))
    case GreaterThan => Err(Unsupported(GreaterThanMessage))
    case OtherOperator(_) => Ok(true)
  }

  /** The conjunction of the conditionals, in order, stopping at the first
      one that rejects the row or throws. */
  function RowMatchesConditions(row: Row, conds: seq<Conditional>): (r: Result<bool, FilterError>)
    ensures r == Ok(true) <==> forall i | 0 <= i < |conds| :: Check(row, conds[i]) == Ok(true)
    ensures r != Ok(true) ==>
      exists i | 0 <= i < |conds| :: r == Check(row, conds[i]) && forall j | 0 <= j < i :: Check(row, conds[j]) == Ok(true)
    decreases |conds|
  {
    if conds == [] then Ok(true)
    else
      var first := Check(row, conds[0]);
      if first != Ok(true) then first
      else
        var rest := RowMatchesConditions(row, conds[1..]);
        assert forall i | 1 <= i < |conds| :: conds[i] == conds[1..][i - 1];
        rest
  }

  /** Filtering by `a + b` is filtering by `a`, then, if the row passed, by `b`. */
  lemma {:induction false} RowMatchesConditionsAppend(row: Row, a: seq<Conditional>, b: seq<Conditional>)
    ensures RowMatchesConditions(row, a + b)
         == if RowMatchesConditions(row, a) == Ok(true) then RowMatchesConditions(row, b) else RowMatchesConditions(row, a)
    decreases |a|
  {
    if a != [] {
      assert (a + b)[0] == a[0];
      assert (a + b)[1..] == a[1..] + b;
      RowMatchesConditionsAppend(row, a[1..], b);
    } else {
      assert a + b == b;
    }
  }

  /** A row passes only through a filter without ordering operators, and only
      when every column an implemented operator compares is in the row and
      holds no C# `null`. */
  lemma PassingRowFacts(row: Row, conds: seq<Conditional>)
    requires RowMatchesConditions(row, conds) == Ok(true)
    ensures forall i | 0 <= i < |conds| :: !conds[i].op.LessThan? && !conds[i].op.GreaterThan?
    ensures forall i | 0 <= i < |conds| && (conds[i].op.EqualTo? || conds[i].op.DifferentFrom? || conds[i].op.Contains?) ::
      HasKey(row, conds[i].sourceColumn) && Get(row, conds[i].sourceColumn) != Null
  {
    forall i | 0 <= i < |conds|
      ensures !conds[i].op.LessThan? && !conds[i].op.GreaterThan?
      ensures (conds[i].op.EqualTo? || conds[i].op.DifferentFrom? || conds[i].op.Contains?) ==>
        HasKey(row, conds[i].sourceColumn) && Get(row, conds[i].sourceColumn) != Null
    {
      assert Check(row, conds[i]) == Ok(true);
    }
  }

  /** The null marker compares as the empty string: it equals "", contains
      "", and is not different from "". */
  lemma NullMarkerComparesAsEmpty(row: Row, key: string)
    requires HasKey(row, key) && Get(row, key) == DbNull
    ensures Check(row, Conditional(key, EqualTo, "")) == Ok(true)
    ensures Check(row, Conditional(key, DifferentFrom, "")) == Ok(false)
    ensures Check(row, Conditional(key, Contains, "")) == Ok(true)
  {
    assert Strings.OccursAt("", "", 0);
  }
}
