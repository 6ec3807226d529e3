/**
 * SpatiaLiteQueryBuilder: a mutable builder that collects a selection, WHERE
 * conditions, ORDER BY terms and LIMIT/OFFSET, and assembles them into one
 * drizzle SQL value.
 *
 * A drizzle SQL value is a sequence of chunks: raw text, an identifier
 * (`sql.identifier`), or a bound parameter (`${value}` with a non-SQL
 * value). Where the builder calls `toString()` on an SQL value, or lets
 * `Array.prototype.join` do so, the resulting string is `objectText` of the
 * value, a parameter of the builder, and that string is bound as a parameter.
 */
module QueryBuilder {
  import opened Options
  import opened Json
  import Seqs

  datatype Chunk = Raw(text: string) | Name(name: string) | Param(value: Json)

  type Sql = seq<Chunk>

  datatype Direction = Asc | Desc

  datatype ConditionKind =
    | Equals | NotEquals | GreaterThan | LessThan | Like | In | IsNull | IsNotNull | Custom
    | Contains | Intersects | Distance | MbrWithin

  datatype Condition = Condition(kind: ConditionKind, sql: Sql)
  datatype SelectField = SelectField(expression: Sql, alias: Option<string>)
  datatype OrderField = OrderField(field: Sql, direction: Direction)

  // The spatial helpers of columns.ts the builder calls.

  function StContains(geom: string, point: string): Sql
  {
    [Raw("ST_Contains("), Name(geom), Raw(", "), Param(JStr(point)), Raw(")")]
  }

  function StIntersects(geom1: string, geom2: string): Sql
  {
    [Raw("ST_Intersects("), Name(geom1), Raw(", "), Name(geom2), Raw(")")]
  }

  function StDistance(geom1: string, geom2: string): Sql
  {
    [Raw("ST_Distance("), Name(geom1), Raw(", "), Name(geom2), Raw(")")]
  }

  function MbrWithinSql(geom: string, bbox: string): Sql
  {
    [Raw("MbrWithin("), Name(geom), Raw(", "), Param(JStr(bbox)), Raw(")")]
  }

  /** drizzle's asc(x) and desc(x). */
  function OrderExpression(o: OrderField): Sql
  {
    o.field + [Raw(if o.direction == Asc then " asc" else " desc")]
  }

  /** A selected field: `expr AS "alias"` when the alias is a non-empty string, else the expression. */
  function SelectExpression(f: SelectField): Sql
  {
    if f.alias.Some? && f.alias.value != "" then f.expression + [Raw(" AS "), Name(f.alias.value)]
    else f.expression
  }

  /** The clauses toSQL may emit, in the order it emits them. */
  datatype ClauseKind = SelectClause | FromClause | WhereClause | OrderByClause | LimitClause | OffsetClause

  function Rank(k: ClauseKind): nat
  {
    match k
    case SelectClause => 0
    case FromClause => 1
    case WhereClause => 2
    case OrderByClause => 3
    case LimitClause => 4
    case OffsetClause => 5
  }

  /** The text Array.prototype.join makes of SQL values. */
  function JoinText(parts: seq<Sql>, sep: string, objectText: Sql -> string): string
  {
    Seqs.Join(seq(|parts|, i requires 0 <= i < |parts| => objectText(parts[i])), sep)
  }

  class SpatiaLiteQueryBuilder {
    const tableName: string
    /** What String(x) yields for a drizzle SQL value x. */
    const objectText: Sql -> string
    var selectFields: seq<SelectField>
    var whereConditions: seq<Condition>
    var orderByFields: seq<OrderField>
    var limitValue: Option<real>
    var offsetValue: Option<real>

    constructor (tableName: string, objectText: Sql -> string)
      ensures this.tableName == tableName && this.objectText == objectText
      ensures selectFields == [] && whereConditions == [] && orderByFields == []
      ensures limitValue == None && offsetValue == None
    {
      this.tableName := tableName;
      this.objectText := objectText;
      selectFields, whereConditions, orderByFields := [], [], [];
      limitValue, offsetValue := None, None;
    }

    /** select('*'): replaces the selection with the single expression `*`. */
    method SelectAll()
      modifies this
      ensures selectFields == [SelectField([Raw("*")], None)]
      ensures whereConditions == old(whereConditions) && orderByFields == old(orderByFields)
      ensures limitValue == old(limitValue) && offsetValue == old(offsetValue)
    {
      selectFields := [SelectField([Raw("*")], None)];
    }

    /** select(record): replaces the selection with the record's entries, each aliased by its key, in entry order. */
    method Select(fields: seq<(string, Sql)>)
      modifies this
      ensures |selectFields| == |fields|
      ensures forall i :: 0 <= i < |fields| ==> selectFields[i] == SelectField(fields[i].1, Some(fields[i].0))
      ensures whereConditions == old(whereConditions) && orderByFields == old(orderByFields)
      ensures limitValue == old(limitValue) && offsetValue == old(offsetValue)
    {
      var out: seq<SelectField> := [];
      var i := 0;
      while i < |fields|
        invariant 0 <= i <= |fields| && |out| == i
        invariant forall j :: 0 <= j < i ==> out[j] == SelectField(fields[j].1, Some(fields[j].0))
      {
        out := out + [SelectField(fields[i].1, Some(fields[i].0))];
        i := i + 1;
      }
      selectFields := out;
    }

    /** Every where* method: one condition appended at the end, nothing else touched. */
    method AddCondition(c: Condition)
      modifies this
      ensures whereConditions == old(whereConditions) + [c]
      ensures selectFields == old(selectFields) && orderByFields == old(orderByFields)
      ensures limitValue == old(limitValue) && offsetValue == old(offsetValue)
    {
      whereConditions := whereConditions + [c];
    }

    method Where(condition: Sql)
      modifies this
      ensures whereConditions == old(whereConditions) + [Condition(Custom, condition)]
      ensures selectFields == old(selectFields) && orderByFields == old(orderByFields)
      ensures limitValue == old(limitValue) && offsetValue == old(offsetValue)
    {
      AddCondition(Condition(Custom, condition));
    }

    method WhereEquals(field: string, value: Json)
      modifies this
      ensures whereConditions == old(whereConditions) + [Condition(Equals, [Name(field), Raw(" = "), Param(value)])]
      ensures selectFields == old(selectFields) && orderByFields == old(orderByFields)
      ensures limitValue == old(limitValue) && offsetValue == old(offsetValue)
    {
      AddCondition(Condition(Equals, [Name(field), Raw(" = "), Param(value)]));
    }

    method WhereLike(field: string, pattern: string)
      modifies this
      ensures whereConditions == old(whereConditions) + [Condition(Like, [Name(field), Raw(" LIKE "), Param(JStr(pattern))])]
      ensures selectFields == old(selectFields) && orderByFields == old(orderByFields)
      ensures limitValue == old(limitValue) && offsetValue == old(offsetValue)
    {
      AddCondition(Condition(Like, [Name(field), Raw(" LIKE "), Param(JStr(pattern))]));
    }

    /** The values are wrapped as SQL and joined as text, so the whole list is one bound string. */
    method WhereIn(field: string, values: seq<Json>)
      modifies this
      ensures whereConditions == old(whereConditions) +
        [Condition(In, [Name(field), Raw(" IN ("),
                        Param(JStr(JoinText(seq(|values|, i requires 0 <= i < |values| => [Param(values[i])]), ", ", objectText))),
                        Raw(")")])]
      ensures selectFields == old(selectFields) && orderByFields == old(orderByFields)
      ensures limitValue == old(limitValue) && offsetValue == old(offsetValue)
    {
      var wrapped := seq(|values|, i requires 0 <= i < |values| => [Param(values[i])]);
      AddCondition(Condition(In, [Name(field), Raw(" IN ("), Param(JStr(JoinText(wrapped, ", ", objectText))), Raw(")")]));
    }

    method WhereIsNull(field: string)
      modifies this
      ensures whereConditions == old(whereConditions) + [Condition(IsNull, [Name(field), Raw(" IS NULL")])]
      ensures selectFields == old(selectFields) && orderByFields == old(orderByFields)
      ensures limitValue == old(limitValue) && offsetValue == old(offsetValue)
    {
      AddCondition(Condition(IsNull, [Name(field), Raw(" IS NULL")]));
    }

    method WhereIsNotNull(field: string)
      modifies this
      ensures whereConditions == old(whereConditions) + [Condition(IsNotNull, [Name(field), Raw(" IS NOT NULL")])]
      ensures selectFields == old(selectFields) && orderByFields == old(orderByFields)
      ensures limitValue == old(limitValue) && offsetValue == old(offsetValue)
    {
      AddCondition(Condition(IsNotNull, [Name(field), Raw(" IS NOT NULL")]));
    }

    method WhereContains(geomField: string, point: Sql)
      modifies this
      ensures whereConditions == old(whereConditions) + [Condition(Contains, StContains(geomField, objectText(point)))]
      ensures selectFields == old(selectFields) && orderByFields == old(orderByFields)
      ensures limitValue == old(limitValue) && offsetValue == old(offsetValue)
    {
      AddCondition(Condition(Contains, StContains(geomField, objectText(point))));
    }

    method WhereIntersects(geomField: string, otherGeom: Sql)
      modifies this
      ensures whereConditions == old(whereConditions) + [Condition(Intersects, StIntersects(geomField, objectText(otherGeom)))]
      ensures selectFields == old(selectFields) && orderByFields == old(orderByFields)
      ensures limitValue == old(limitValue) && offsetValue == old(offsetValue)
    {
      AddCondition(Condition(Intersects, StIntersects(geomField, objectText(otherGeom))));
    }

    method WhereMbrWithin(geomField: string, bbox: Sql)
      modifies this
      ensures whereConditions == old(whereConditions) + [Condition(MbrWithin, MbrWithinSql(geomField, objectText(bbox)))]
      ensures selectFields == old(selectFields) && orderByFields == old(orderByFields)
      ensures limitValue == old(limitValue) && offsetValue == old(offsetValue)
    {
      AddCondition(Condition(MbrWithin, MbrWithinSql(geomField, objectText(bbox))));
    }

    /** ST_Distance(geom, point) <= maxDistance: an inclusive bound. */
    method WhereDistanceWithin(geomField: string, point: Sql, maxDistance: real)
      modifies this
      ensures whereConditions == old(whereConditions) +
        [Condition(Custom, StDistance(geomField, objectText(point)) + [Raw(" <= "), Param(JNum(maxDistance))])]
      ensures selectFields == old(selectFields) && orderByFields == old(orderByFields)
      ensures limitValue == old(limitValue) && offsetValue == old(offsetValue)
    {
      AddCondition(Condition(Custom, StDistance(geomField, objectText(point)) + [Raw(" <= "), Param(JNum(maxDistance))]));
    }

    /** orderBy(field, direction = 'asc'): appends one term. */
    method OrderBy(field: Sql, direction: Option<Direction>)
      modifies this
      ensures orderByFields == old(orderByFields) + [OrderField(field, direction.GetOr(Asc))]
      ensures selectFields == old(selectFields) && whereConditions == old(whereConditions)
      ensures limitValue == old(limitValue) && offsetValue == old(offsetValue)
    {
      orderByFields := orderByFields + [OrderField(field, direction.GetOr(Asc))];
    }

    method OrderByDistance(geomField: string, point: Sql, direction: Option<Direction>)
      modifies this
      ensures orderByFields == old(orderByFields) + [OrderField(StDistance(geomField, objectText(point)), direction.GetOr(Asc))]
      ensures selectFields == old(selectFields) && whereConditions == old(whereConditions)
      ensures limitValue == old(limitValue) && offsetValue == old(offsetValue)
    {
      orderByFields := orderByFields + [OrderField(StDistance(geomField, objectText(point)), direction.GetOr(Asc))];
    }

    /** limit(n): overwrites any earlier limit. */
    method Limit(n: real)
      modifies this
      ensures limitValue == Some(n)
      ensures selectFields == old(selectFields) && whereConditions == old(whereConditions)
      ensures orderByFields == old(orderByFields) && offsetValue == old(offsetValue)
    {
      limitValue := Some(n);
    }

    /** offset(n): overwrites any earlier offset. */
    method Offset(n: real)
      modifies this
      ensures offsetValue == Some(n)
      ensures selectFields == old(selectFields) && whereConditions == old(whereConditions)
      ensures orderByFields == old(orderByFields) && limitValue == old(limitValue)
    {
      offsetValue := Some(n);
    }

    /** `SELECT *` for an empty selection or a lone `*`; otherwise the joined expressions as one parameter. */
    function SelectSql(): (s: Sql)
      reads this
      ensures s == [Raw("SELECT *")] <==>
        |selectFields| == 0 || (|selectFields| == 1 && objectText(selectFields[0].expression) == "*")
    {
      if |selectFields| == 0 then [Raw("SELECT *")]
      else if |selectFields| == 1 && objectText(selectFields[0].expression) == "*" then [Raw("SELECT *")]
      else
        var fields := selectFields;
        var exprs := seq(|fields|, i requires 0 <= i < |fields| => SelectExpression(fields[i]));
        [Raw("SELECT "), Param(JStr(JoinText(exprs, ", ", objectText)))]
    }

    /** The conditions' texts joined with " AND ", in insertion order. */
    function WhereText(): string
      reads this
    {
      var conds := whereConditions;
      JoinText(seq(|conds|, i requires 0 <= i < |conds| => conds[i].sql), " AND ", objectText)
    }

    function OrderText(): string
      reads this
    {
      var terms := orderByFields;
      JoinText(seq(|terms|, i requires 0 <= i < |terms| => OrderExpression(terms[i])), ", ", objectText)
    }

    /** Every clause toSQL may build, in emission order, with its body when it is built. */
    function Slots(): (slots: seq<(ClauseKind, Option<Sql>)>)
      reads this
    {
      [(SelectClause, Some(SelectSql())),
       (FromClause, Some([Raw("FROM "), Name(tableName)])),
       (WhereClause, if |whereConditions| > 0 then Some([Raw("WHERE "), Param(JStr(WhereText()))]) else None),
       (OrderByClause, if |orderByFields| > 0 then Some([Raw("ORDER BY "), Param(JStr(OrderText()))]) else None),
       (LimitClause, if limitValue.Some? then Some([Raw("LIMIT "), Param(JNum(limitValue.value))]) else None),
       (OffsetClause, if offsetValue.Some? then Some([Raw("OFFSET "), Param(JNum(offsetValue.value))]) else None)]
    }

    /** The clauses toSQL emits, tagged with their kind: each optional clause exactly when its part is set. */
    function Clauses(): (cs: seq<(ClauseKind, Sql)>)
      reads this
      ensures |cs| >= 2 && cs[0] == (SelectClause, SelectSql()) && cs[1] == (FromClause, [Raw("FROM "), Name(tableName)])
      ensures RanksIncrease(cs)
      ensures forall b :: (WhereClause, b) in cs <==> |whereConditions| > 0 && b == [Raw("WHERE "), Param(JStr(WhereText()))]
      ensures forall b :: (OrderByClause, b) in cs <==> |orderByFields| > 0 && b == [Raw("ORDER BY "), Param(JStr(OrderText()))]
      ensures forall b :: (LimitClause, b) in cs <==> limitValue.Some? && b == [Raw("LIMIT "), Param(JNum(limitValue.value))]
      ensures forall b :: (OffsetClause, b) in cs <==> offsetValue.Some? && b == [Raw("OFFSET "), Param(JNum(offsetValue.value))]
    {
      var slots := Slots();
      AssembleRanks(slots);
      AssembleStart(slots);
      forall b ensures (WhereClause, b) in Assemble(slots) <==> slots[2].1 == Some(b) {
        AssembleMember(slots, 2, b);
      }
      forall b ensures (OrderByClause, b) in Assemble(slots) <==> slots[3].1 == Some(b) {
        AssembleMember(slots, 3, b);
      }
      forall b ensures (LimitClause, b) in Assemble(slots) <==> slots[4].1 == Some(b) {
        AssembleMember(slots, 4, b);
      }
      forall b ensures (OffsetClause, b) in Assemble(slots) <==> slots[5].1 == Some(b) {
        AssembleMember(slots, 5, b);
      }
      Assemble(slots)
    }

    /** toSQL: the clauses joined with single spaces. */
    function ToSql(): (s: Sql)
      reads this
      ensures |s| >= |SelectSql()| && s[..|SelectSql()|] == SelectSql()
      ensures |s| == Seqs.SumLengths(ClauseSqls(Clauses())) + |Clauses()| - 1
    {
      var parts := ClauseSqls(Clauses());
      Seqs.JoinLength(parts, [Raw(" ")]);
      JoinStartsWithFirst(parts, [Raw(" ")]);
      Seqs.Join(parts, [Raw(" ")])
    }

    /** toSQLString: a placeholder that depends on the table name alone. */
    function ToSqlString(): (s: string)
      ensures s == "SELECT * FROM " + tableName
    {
      "SELECT * FROM " + tableName
    }
  }

  /** Clause kinds strictly increase in rank along the sequence. */
  predicate RanksIncrease(cs: seq<(ClauseKind, Sql)>)
  {
    forall i, j :: 0 <= i < j < |cs| ==> Rank(cs[i].0) < Rank(cs[j].0)
  }

  /** The clauses whose body is present, in slot order. */
  function Assemble(slots: seq<(ClauseKind, Option<Sql>)>): seq<(ClauseKind, Sql)>
  {
    if |slots| == 0 then []
    else (if slots[0].1.Some? then [(slots[0].0, slots[0].1.value)] else []) + Assemble(slots[1..])
  }

  /** A clause is emitted exactly when its slot holds that body; distinct kinds make the slot unique. */
  lemma {:induction false} AssembleMember(slots: seq<(ClauseKind, Option<Sql>)>, n: nat, b: Sql)
    requires n < |slots| && forall i :: 0 <= i < |slots| && i != n ==> slots[i].0 != slots[n].0
    ensures (slots[n].0, b) in Assemble(slots) <==> slots[n].1 == Some(b)
  {
    if n == 0 {
      AssembleKinds(slots[1..], (slots[n].0, b));
    } else {
      AssembleMember(slots[1..], n - 1, b);
    }
  }

  /** Every emitted clause comes from a slot of its kind. */
  lemma {:induction false} AssembleKinds(slots: seq<(ClauseKind, Option<Sql>)>, c: (ClauseKind, Sql))
    ensures c in Assemble(slots) ==> exists i :: 0 <= i < |slots| && slots[i].0 == c.0
  {
    if |slots| > 0 && c in Assemble(slots) {
      if slots[0].1.Some? && c == (slots[0].0, slots[0].1.value) {
        assert slots[0].0 == c.0;
      } else {
        AssembleKinds(slots[1..], c);
        var i :| 0 <= i < |slots[1..]| && slots[1..][i].0 == c.0;
        assert slots[i + 1].0 == c.0;
      }
    }
  }

  /** Slots in increasing rank give clauses in increasing rank. */
  lemma {:induction false} AssembleRanks(slots: seq<(ClauseKind, Option<Sql>)>)
    requires forall i, j :: 0 <= i < j < |slots| ==> Rank(slots[i].0) < Rank(slots[j].0)
    ensures RanksIncrease(Assemble(slots))
  {
    if |slots| > 0 {
      var rest := slots[1..];
      AssembleRanks(rest);
      var head: seq<(ClauseKind, Sql)> := if slots[0].1.Some? then [(slots[0].0, slots[0].1.value)] else [];
      var cs := Assemble(slots);
      assert cs == head + Assemble(rest);
      forall i, j | 0 <= i < j < |cs| ensures Rank(cs[i].0) < Rank(cs[j].0) {
        if i < |head| {
          AssembleKinds(rest, cs[j]);
          var m :| 0 <= m < |rest| && rest[m].0 == cs[j].0;
          assert rest[m] == slots[m + 1];
        } else {
          assert cs[i] == Assemble(rest)[i - |head|] && cs[j] == Assemble(rest)[j - |head|];
        }
      }
    }
  }

  /** Two leading slots that are always present are the first two clauses. */
  lemma AssembleStart(slots: seq<(ClauseKind, Option<Sql>)>)
    requires |slots| >= 2 && slots[0].1.Some? && slots[1].1.Some?
    ensures |Assemble(slots)| >= 2
    ensures Assemble(slots)[0] == (slots[0].0, slots[0].1.value) && Assemble(slots)[1] == (slots[1].0, slots[1].1.value)
  {
    assert Assemble(slots) == [(slots[0].0, slots[0].1.value)] + Assemble(slots[1..]);
    assert Assemble(slots[1..]) == [(slots[1].0, slots[1].1.value)] + Assemble(slots[2..]);
  }

  function ClauseSqls(cs: seq<(ClauseKind, Sql)>): (r: seq<Sql>)
    ensures |r| == |cs| && forall i :: 0 <= i < |cs| ==> r[i] == cs[i].1
  {
    seq(|cs|, i requires 0 <= i < |cs| => cs[i].1)
  }

  /** A join of one or more parts starts with the first part. */
  lemma {:induction false} JoinStartsWithFirst<T>(parts: seq<seq<T>>, sep: seq<T>)
    requires |parts| > 0
    ensures |Seqs.Join(parts, sep)| >= |parts[0]|
    ensures Seqs.Join(parts, sep)[..|parts[0]|] == parts[0]
  {
    if |parts| > 1 {
      var init := parts[..|parts| - 1];
      JoinStartsWithFirst(init, sep);
      assert init[0] == parts[0];
      var j := Seqs.Join(parts, sep);
      assert j == Seqs.Join(init, sep) + sep + parts[|parts| - 1];
      assert j[..|parts[0]|] == Seqs.Join(init, sep)[..|parts[0]|];
    }
  }
}
