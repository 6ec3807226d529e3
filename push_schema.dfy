/**
 * The DDL serialiser behind the schema push: a table's column records become
 * one `CREATE TABLE IF NOT EXISTS` statement, one fragment per column in
 * declaration order.
 */
module PushSchema {
  import opened Options
  import Seqs

  /**
   * The column facts the serialiser reads. `default` holds the text the
   * default value interpolates to, and is None when the default is undefined.
   */
  datatype Column = Column(name: string, sqlType: string, primary: bool, notNull: bool, default: Option<string>)

  /** ` DEFAULT x` when the default is defined, else nothing. */
  function DefaultText(d: Option<string>): (s: string)
    ensures s == [] <==> d.None?
    ensures d.Some? ==> |s| == 9 + |d.value| && s[..9] == " DEFAULT " && s[9..] == d.value
  {
    if d.Some? then " DEFAULT " + d.value else ""
  }

  /** ` NOT NULL` when the column is NOT NULL, then the default clause. */
  function NotNullText(notNull: bool, d: Option<string>): (s: string)
    ensures s == [] <==> !notNull && d.None?
    ensures notNull ==> |s| >= 9 && s[..9] == " NOT NULL" && s[9..] == DefaultText(d)
    ensures !notNull ==> s == DefaultText(d)
  {
    (if notNull then " NOT NULL" else "") + DefaultText(d)
  }

  /** The optional clauses in their fixed order: PRIMARY KEY, NOT NULL, DEFAULT, each only when its flag holds. */
  function Suffixes(c: Column): (s: string)
    ensures s == [] <==> !c.primary && !c.notNull && c.default.None?
    ensures c.primary ==> |s| >= 12 && s[..12] == " PRIMARY KEY" && s[12..] == NotNullText(c.notNull, c.default)
    ensures !c.primary ==> s == NotNullText(c.notNull, c.default)
  {
    (if c.primary then " PRIMARY KEY" else "") + NotNullText(c.notNull, c.default)
  }

  /** The default clause determines the default. */
  lemma DefaultTextInjective(d: Option<string>, e: Option<string>)
    requires DefaultText(d) == DefaultText(e)
    ensures d == e
  {
    if d.Some? && e.Some? {
      assert d.value == DefaultText(d)[9..] == e.value;
    }
  }

  lemma NotNullTextInjective(n: bool, d: Option<string>, m: bool, e: Option<string>)
    requires NotNullText(n, d) == NotNullText(m, e)
    ensures n == m && d == e
  {
    var s := NotNullText(n, d);
    if n {
      assert DefaultText(d) == s[9..] == DefaultText(e);
    }
    DefaultTextInjective(d, e);
  }

  /** Only a PRIMARY KEY suffix has `P` as its second character. */
  lemma SuffixesSecondChar(c: Column)
    ensures c.primary <==> |Suffixes(c)| >= 2 && Suffixes(c)[1] == 'P'
  {
    var s := Suffixes(c);
    if c.primary {
      assert s[1] == s[..12][1];
    } else if |s| >= 9 {
      assert s[1] == s[..9][1];
    }
  }

  /** The suffix text determines all three flags. */
  lemma SuffixesInjective(a: Column, b: Column)
    requires Suffixes(a) == Suffixes(b)
    ensures a.primary == b.primary && a.notNull == b.notNull && a.default == b.default
  {
    var s := Suffixes(a);
    SuffixesSecondChar(a);
    SuffixesSecondChar(b);
    if a.primary {
      assert NotNullText(a.notNull, a.default) == s[12..] == NotNullText(b.notNull, b.default);
    }
    NotNullTextInjective(a.notNull, a.default, b.notNull, b.default);
  }

  /** The backtick-quoted name and the space after it. */
  function QuotedName(name: string): (h: string)
    ensures |h| == |name| + 3 && h[0] == '`' && h[|name| + 1] == '`' && h[|name| + 2] == ' '
    ensures forall k :: 1 <= k <= |name| ==> h[k] == name[k - 1]
  {
    "`" + name + "` "
  }

  /** One column: its backtick-quoted name, a space, its SQL type, then the suffixes. */
  function ColumnSql(c: Column): (s: string)
    ensures |s| == |c.name| + |c.sqlType| + 3 + |Suffixes(c)|
  {
    QuotedName(c.name) + (c.sqlType + Suffixes(c))
  }

  predicate NoBacktick(s: string)
  {
    forall k :: 0 <= k < |s| ==> s[k] != '`'
  }

  /**
   * Two columns of the same type render alike only when they are the same
   * column: the closing backtick ends the name, and the suffixes give the flags.
   */
  lemma ColumnSqlInjective(a: Column, b: Column)
    requires NoBacktick(a.name) && NoBacktick(b.name) && a.sqlType == b.sqlType
    requires ColumnSql(a) == ColumnSql(b)
    ensures a == b
  {
    NameDetermined(a.name, b.name, a.sqlType + Suffixes(a), b.sqlType + Suffixes(b));
    SameStartRest(a.sqlType, Suffixes(a), Suffixes(b));
    SuffixesInjective(a, b);
  }

  /** A backtick-free name is recovered from the text it starts, and so is the rest. */
  lemma NameDetermined(n: string, m: string, r: string, q: string)
    requires NoBacktick(n) && NoBacktick(m)
    requires QuotedName(n) + r == QuotedName(m) + q
    ensures n == m && r == q
  {
    var s := QuotedName(n) + r;
    var hn, hm := QuotedName(n), QuotedName(m);
    NameNotShorter(n, m, r, q);
    NameNotShorter(m, n, q, r);
    forall k | 0 <= k < |n| ensures n[k] == m[k] {
      assert s[k + 1] == hn[k + 1] == hm[k + 1];
    }
    assert r == s[|hn|..] == q;
  }

  lemma SameStartRest(x: string, y: string, z: string)
    requires x + y == x + z
    ensures y == z
  {
    assert y == (x + y)[|x|..];
  }

  /** The closing backtick of the shorter name would fall inside the longer one. */
  lemma NameNotShorter(n: string, m: string, r: string, q: string)
    requires NoBacktick(m)
    requires QuotedName(n) + r == QuotedName(m) + q
    ensures |m| <= |n|
  {
    var i := |n| + 1;
    assert (QuotedName(m) + q)[i] == (QuotedName(n) + r)[i] == '`';
    BacktickAfterName(m, q, i);
  }

  /** Inside the quotes there is no backtick, so any backtick after the opening one comes after the name. */
  lemma BacktickAfterName(m: string, q: string, i: nat)
    requires NoBacktick(m)
    requires 1 <= i < |QuotedName(m) + q| && (QuotedName(m) + q)[i] == '`'
    ensures i > |m|
  {
  }

  function ColumnSqls(columns: seq<Column>): (r: seq<string>)
    ensures |r| == |columns| && forall i :: 0 <= i < |columns| ==> r[i] == ColumnSql(columns[i])
  {
    seq(|columns|, i requires 0 <= i < |columns| => ColumnSql(columns[i]))
  }

  /** The column fragments, in declaration order, separated by a comma, a newline and two spaces. */
  function ColumnsText(columns: seq<Column>): string
  {
    Seqs.Join(ColumnSqls(columns), ",\n  ")
  }

  /** tableToSql: the header with the quoted table name, the column list, then the closing parenthesis. */
  function TableToSql(name: string, columns: seq<Column>): (s: string)
    ensures |s| == 37 + |name| + |ColumnsText(columns)|
    ensures s[..34 + |name|] == "CREATE TABLE IF NOT EXISTS `" + name + "` (\n  "
    ensures s[34 + |name|..|s| - 3] == ColumnsText(columns)
    ensures s[|s| - 3..] == "\n);"
  {
    "CREATE TABLE IF NOT EXISTS `" + name + "` (\n  " + ColumnsText(columns) + "\n);"
  }

  /** A column added at the end shows up as one more fragment after one more separator. */
  lemma ColumnsTextSnoc(columns: seq<Column>, c: Column)
    ensures ColumnsText(columns + [c]) ==
            if |columns| == 0 then ColumnSql(c) else ColumnsText(columns) + ",\n  " + ColumnSql(c)
  {
    assert ColumnSqls(columns + [c]) == ColumnSqls(columns) + [ColumnSql(c)];
    Seqs.JoinSnoc(ColumnSqls(columns), ColumnSql(c), ",\n  ");
  }

  /** The statement's length: fixed text, the name, every fragment, and one separator between neighbours. */
  lemma TableToSqlLength(name: string, columns: seq<Column>)
    requires |columns| > 0
    ensures |TableToSql(name, columns)| == 37 + |name| + Seqs.SumLengths(ColumnSqls(columns)) + 4 * (|columns| - 1)
  {
    Seqs.JoinLength(ColumnSqls(columns), ",\n  ");
  }
}
