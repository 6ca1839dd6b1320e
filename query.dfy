/**
 * `Searcher.gen_query(word_ids)`: the SQL text that selects, for pages
 * holding all the given words, the page id and one location per word.  Each
 * word id gets its own alias `w<k>` of the `wordlocation` table; every alias
 * after the first is joined to the one before it on the page id.
 */
module Query {
  /** The decimal digit of `d`. */
  function DigitChar(d: nat): (c: char)
    requires d < 10
    ensures '0' <= c <= '9'
  {
    ('0' as int + d) as char
  }

  predicate IsDigit(c: char) {
    '0' <= c <= '9'
  }

  predicate AllDigits(s: string) {
    forall i :: 0 <= i < |s| ==> IsDigit(s[i])
  }

  /** `str(n)` for a non-negative `n`: its decimal digits, most significant first, without leading zeros. */
  function Decimal(n: nat): (s: string)
    ensures |s| >= 1 && AllDigits(s)
    ensures s[0] == '0' ==> n == 0 && s == "0"
    decreases n
  {
    if n < 10 then [DigitChar(n)]
    else
      var r := Decimal(n / 10) + [DigitChar(n % 10)];
      assert r[0] == Decimal(n / 10)[0];
      r
  }

  /** The number a run of decimal digits denotes. */
  function DecimalValue(s: string): nat
    requires AllDigits(s)
    decreases |s|
  {
    if s == [] then 0
    else DecimalValue(s[..|s| - 1]) * 10 + (s[|s| - 1] as int - '0' as int)
  }

  /** Reading back the digits of `n` gives `n`: `Decimal` loses nothing. */
  lemma {:induction false} DecimalValueOfDecimal(n: nat)
    ensures DecimalValue(Decimal(n)) == n
    decreases n
  {
    if n >= 10 {
      DecimalValueOfDecimal(n / 10);
      var s := Decimal(n);
      assert s[..|s| - 1] == Decimal(n / 10);
    }
  }

  /** Two numbers with the same digits are equal: the text of an id names exactly one id. */
  lemma DecimalInjective(m: nat, n: nat)
    requires Decimal(m) == Decimal(n)
    ensures m == n
  {
    DecimalValueOfDecimal(m);
    DecimalValueOfDecimal(n);
  }

  /** `sep.join(parts)`. */
  function Join(parts: seq<string>, sep: string): string
    decreases |parts|
  {
    if parts == [] then ""
    else if |parts| == 1 then parts[0]
    else Join(parts[..|parts| - 1], sep) + sep + parts[|parts| - 1]
  }

  /** `f'wordlocation as w{k}'`. */
  function TableOf(k: nat): string {
    "wordlocation as w" + Decimal(k)
  }

  /** `f'w{k}.location'`. */
  function ColumnOf(k: nat): string {
    "w" + Decimal(k) + ".location"
  }

  /** The clause of alias `k`: its word id, and from the second alias on, the join with the alias before. */
  function ClauseOf(k: nat, wordId: nat): string {
    if k == 0 then "w" + Decimal(k) + ".wordid = " + Decimal(wordId)
    else "w" + Decimal(k) + ".wordid = " + Decimal(wordId) + " AND w" + Decimal(k - 1) + ".urlid = w" + Decimal(k) + ".urlid"
  }

  /** The three lists `gen_query` builds for `wordIds`. */
  function Tables(wordIds: seq<nat>): seq<string> {
    seq(|wordIds|, k requires 0 <= k => TableOf(k))
  }

  function Columns(wordIds: seq<nat>): seq<string> {
    ["w0.urlid"] + seq(|wordIds|, k requires 0 <= k => ColumnOf(k))
  }

  function Clauses(wordIds: seq<nat>): seq<string> {
    seq(|wordIds|, k requires 0 <= k < |wordIds| => ClauseOf(k, wordIds[k]))
  }

  /** Two aliases with the same table text are the same alias. */
  lemma TableOfInjective(i: nat, j: nat)
    requires TableOf(i) == TableOf(j)
    ensures i == j
  {
    var p := "wordlocation as w";
    assert TableOf(i)[|p|..] == Decimal(i) && TableOf(j)[|p|..] == Decimal(j);
    DecimalInjective(i, j);
  }

  /** Two aliases with the same location column are the same alias. */
  lemma ColumnOfInjective(i: nat, j: nat)
    requires ColumnOf(i) == ColumnOf(j)
    ensures i == j
  {
    var a, b := ColumnOf(i), ColumnOf(j);
    assert |Decimal(i)| == |Decimal(j)|;
    assert a[1..|a| - 9] == Decimal(i) && b[1..|b| - 9] == Decimal(j);
    DecimalInjective(i, j);
  }

  /**
   * Each word id gets an alias of its own: the FROM list names no alias
   * twice, and the SELECT list reads each alias's location once.
   */
  lemma AliasesDistinct(wordIds: seq<nat>)
    ensures |Tables(wordIds)| == |wordIds| && |Columns(wordIds)| == |wordIds| + 1
    ensures forall i, j :: 0 <= i < j < |wordIds| ==> Tables(wordIds)[i] != Tables(wordIds)[j]
    ensures forall i, j :: 1 <= i < j <= |wordIds| ==> Columns(wordIds)[i] != Columns(wordIds)[j]
  {
    forall i, j | 0 <= i < j < |wordIds| ensures Tables(wordIds)[i] != Tables(wordIds)[j] {
      if Tables(wordIds)[i] == Tables(wordIds)[j] {
        TableOfInjective(i, j);
      }
    }
    forall i, j | 1 <= i < j <= |wordIds| ensures Columns(wordIds)[i] != Columns(wordIds)[j] {
      if Columns(wordIds)[i] == Columns(wordIds)[j] {
        assert Columns(wordIds)[i] == ColumnOf(i - 1) && Columns(wordIds)[j] == ColumnOf(j - 1);
        ColumnOfInjective(i - 1, j - 1);
      }
    }
  }

  /** `f'SELECT {columns_string} FROM {tables_string} WHERE {clauses_string}'`. */
  function SelectText(columns: string, tables: string, clauses: string): string {
    "SELECT " + columns + " FROM " + tables + " WHERE " + clauses
  }

  /** The query text, from the three lists joined by `, `, `, ` and ` AND `. */
  function QueryText(wordIds: seq<nat>): string {
    SelectText(Join(Columns(wordIds), ", "), Join(Tables(wordIds), ", "), Join(Clauses(wordIds), " AND "))
  }

  /** `gen_query(word_ids)`: the loop over `enumerate(word_ids)` that fills the three lists, then the joins. */
  method GenQuery(wordIds: seq<nat>) returns (q: string)
    ensures q == QueryText(wordIds)
  {
    var tables: seq<string> := [];
    var columns: seq<string> := ["w0.urlid"];
    var clauses: seq<string> := [];
    var idx := 0;
    while idx < |wordIds|
      invariant 0 <= idx <= |wordIds|
      invariant tables == Tables(wordIds[..idx])
      invariant columns == Columns(wordIds[..idx])
      invariant clauses == Clauses(wordIds[..idx])
    {
      var wordId := wordIds[idx];
      ListsGrow(wordIds[..idx], wordId);
      assert wordIds[..idx + 1] == wordIds[..idx] + [wordId];
      tables := tables + ["wordlocation as w" + Decimal(idx)];
      columns := columns + ["w" + Decimal(idx) + ".location"];
      if idx == 0 {
        clauses := clauses + ["w" + Decimal(idx) + ".wordid = " + Decimal(wordId)];
      } else {
        clauses := clauses + ["w" + Decimal(idx) + ".wordid = " + Decimal(wordId)
                              + " AND w" + Decimal(idx - 1) + ".urlid = w" + Decimal(idx) + ".urlid"];
      }
      idx := idx + 1;
    }
    assert wordIds[..idx] == wordIds;
    var tablesString := Join(tables, ", ");
    var columnsString := Join(columns, ", ");
    var clausesString := Join(clauses, " AND ");
    q := "SELECT " + columnsString + " FROM " + tablesString + " WHERE " + clausesString;
  }

  /** The list of one more word id: each of the three lists gains one item for the new alias. */
  lemma ListsGrow(wordIds: seq<nat>, wordId: nat)
    ensures var n := |wordIds|;
      && Tables(wordIds + [wordId]) == Tables(wordIds) + [TableOf(n)]
      && Columns(wordIds + [wordId]) == Columns(wordIds) + [ColumnOf(n)]
      && Clauses(wordIds + [wordId]) == Clauses(wordIds) + [ClauseOf(n, wordId)]
  {
    TablesGrow(wordIds, wordId);
    ColumnsGrow(wordIds, wordId);
    ClausesGrow(wordIds, wordId);
  }

  lemma TablesGrow(wordIds: seq<nat>, wordId: nat)
    ensures Tables(wordIds + [wordId]) == Tables(wordIds) + [TableOf(|wordIds|)]
  {
  }

  lemma ColumnsGrow(wordIds: seq<nat>, wordId: nat)
    ensures Columns(wordIds + [wordId]) == Columns(wordIds) + [ColumnOf(|wordIds|)]
  {
    var n := |wordIds|;
    var cs := Columns(wordIds + [wordId]);
    forall k | 0 <= k < |cs| ensures cs[k] == (Columns(wordIds) + [ColumnOf(n)])[k] {
      if 1 <= k {
        assert cs[(k - 1) + 1] == ColumnOf(k - 1);
      }
    }
  }

  lemma ClausesGrow(wordIds: seq<nat>, wordId: nat)
    ensures Clauses(wordIds + [wordId]) == Clauses(wordIds) + [ClauseOf(|wordIds|, wordId)]
  {
    var ids := wordIds + [wordId];
    var n := |wordIds|;
    var ls := Clauses(ids);
    forall k | 0 <= k < |ls| ensures ls[k] == (Clauses(wordIds) + [ClauseOf(n, wordId)])[k] {
      assert ids[k] == if k < n then wordIds[k] else wordId;
    }
  }

  lemma JoinSnoc(parts: seq<string>, part: string, sep: string)
    requires parts != []
    ensures Join(parts + [part], sep) == Join(parts, sep) + sep + part
  {
    assert (parts + [part])[..|parts|] == parts;
  }

  /**
   * One more word id adds `, w<n>.location` to the SELECT list,
   * `, wordlocation as w<n>` to the FROM list and, after the first id,
   * ` AND w<n>.wordid = <id> AND w<n-1>.urlid = w<n>.urlid` to the WHERE
   * clause.
   */
  lemma QueryTextGrows(wordIds: seq<nat>, wordId: nat)
    requires wordIds != []
    ensures var n := |wordIds|;
      QueryText(wordIds + [wordId])
        == SelectText(Join(Columns(wordIds), ", ") + ", " + ColumnOf(n),
                      Join(Tables(wordIds), ", ") + ", " + TableOf(n),
                      Join(Clauses(wordIds), " AND ") + " AND " + ClauseOf(n, wordId))
  {
    var n := |wordIds|;
    ListsGrow(wordIds, wordId);
    JoinSnoc(Columns(wordIds), ColumnOf(n), ", ");
    JoinSnoc(Tables(wordIds), TableOf(n), ", ");
    JoinSnoc(Clauses(wordIds), ClauseOf(n, wordId), " AND ");
  }

  lemma SmallDecimals()
    ensures Decimal(0) == "0" && Decimal(1) == "1" && Decimal(5) == "5" && Decimal(7) == "7"
  {
  }

  lemma FirstAlias()
    ensures ColumnOf(0) == "w0.location" && TableOf(0) == "wordlocation as w0"
  {
    SmallDecimals();
  }

  lemma SecondAlias()
    ensures ColumnOf(1) == "w1.location" && TableOf(1) == "wordlocation as w1"
  {
    SmallDecimals();
  }

  lemma FirstClause()
    ensures ClauseOf(0, 5) == "w0.wordid = 5"
  {
    SmallDecimals();
  }

  lemma SecondClauseWord()
    ensures "w" + Decimal(1) + ".wordid = " + Decimal(7) == "w1.wordid = 7"
  {
    SmallDecimals();
  }

  lemma SecondClauseJoin()
    ensures " AND w" + Decimal(0) + ".urlid = w" + Decimal(1) + ".urlid" == " AND w0.urlid = w1.urlid"
  {
    SmallDecimals();
  }

  lemma SecondClause()
    ensures ClauseOf(1, 7) == "w1.wordid = 7" + " AND w0.urlid = w1.urlid"
  {
    assert ClauseOf(1, 7)
      == ("w" + Decimal(1) + ".wordid = " + Decimal(7)) + (" AND w" + Decimal(0) + ".urlid = w" + Decimal(1) + ".urlid");
    SecondClauseWord();
    SecondClauseJoin();
  }

  /** A single word id: one alias, no join. */
  lemma OneWord()
    ensures QueryText([5]) == SelectText("w0.urlid, w0.location", "wordlocation as w0", "w0.wordid = 5")
  {
    FirstAlias();
    FirstClause();
    var cs := Columns([5]);
    assert cs == ["w0.urlid", "w0.location"];
    assert cs[..1] == ["w0.urlid"];
    assert Tables([5]) == ["wordlocation as w0"];
    assert Clauses([5]) == ["w0.wordid = 5"];
  }

  /** Two word ids: the second alias is joined to the first on the page id. */
  lemma TwoWords()
    ensures QueryText([5, 7])
      == SelectText(Join(["w0.urlid", "w0.location", "w1.location"], ", "),
                    Join(["wordlocation as w0", "wordlocation as w1"], ", "),
                    Join(["w0.wordid = 5", "w1.wordid = 7" + " AND w0.urlid = w1.urlid"], " AND "))
  {
    FirstAlias();
    SecondAlias();
    FirstClause();
    SecondClause();
    assert Columns([5, 7]) == ["w0.urlid", "w0.location", "w1.location"];
    assert Tables([5, 7]) == ["wordlocation as w0", "wordlocation as w1"];
    assert Clauses([5, 7]) == ["w0.wordid = 5", "w1.wordid = 7" + " AND w0.urlid = w1.urlid"];
  }

  /** No word id: the lists are empty, and the text is not valid SQL. */
  lemma NoWords()
    ensures QueryText([]) == SelectText("w0.urlid", "", "")
  {
  }
}
