/**
  Two pure steps of the chat endpoint: splitting the requested table names
  into uploaded (`excel_`) tables and database tables, and renaming the
  columns of a query result back to the uploaded tables' original column
  names.
 */
module ChatQuery {
  import opened ColumnNames
  import ExcelTables

  const ExcelPrefix: string := "excel_"

  /** `t.startswith("excel_")`. */
  predicate IsExcelName(t: string) {
    |ExcelPrefix| <= |t| && t[..|ExcelPrefix|] == ExcelPrefix
  }

  /** The requested names that are (`excel` true) or are not (`excel` false) uploaded tables, in request order. */
  function Select(requested: seq<string>, excel: bool): (r: seq<string>)
    ensures forall i :: 0 <= i < |r| ==> IsExcelName(r[i]) == excel
    ensures |r| <= |requested|
  {
    if requested == [] then []
    else (if IsExcelName(requested[0]) == excel then [requested[0]] else []) + Select(requested[1..], excel)
  }

  /** The requested names that start with `excel_`, in request order (`excel_tables` in `chat_with_table`). */
  function ExcelTableNames(requested: seq<string>): seq<string> {
    Select(requested, true)
  }

  /** The other requested names, in request order (`pg_tables` in `chat_with_table`). */
  function PgTableNames(requested: seq<string>): seq<string> {
    Select(requested, false)
  }

  lemma {:induction false} SelectCounts(requested: seq<string>, excel: bool)
    ensures forall t :: multiset(Select(requested, excel))[t] ==
                        if IsExcelName(t) == excel then multiset(requested)[t] else 0
  {
    if requested != [] {
      SelectCounts(requested[1..], excel);
      assert requested == [requested[0]] + requested[1..];
    }
  }

  lemma {:induction false} SelectInOrder(requested: seq<string>, excel: bool)
    ensures IsSubsequence(Select(requested, excel), requested)
  {
    if requested != [] {
      SelectInOrder(requested[1..], excel);
      var rest := Select(requested[1..], excel);
      if IsExcelName(requested[0]) == excel {
        assert ([requested[0]] + rest)[1..] == rest;
      } else if rest != [] {
        assert Select(requested, excel) == rest;
        assert rest[0] != requested[0];
      }
    }
  }

  /** Between them the two lists hold every requested name, as often as requested. */
  lemma {:induction false} SelectSplits(requested: seq<string>)
    ensures multiset(Select(requested, true)) + multiset(Select(requested, false)) == multiset(requested)
    ensures |Select(requested, true)| + |Select(requested, false)| == |requested|
  {
    if requested != [] {
      SelectSplits(requested[1..]);
      assert requested == [requested[0]] + requested[1..];
    }
  }

  /** No name is in both lists. */
  lemma SelectDisjoint(requested: seq<string>, t: string)
    ensures !(t in Select(requested, true) && t in Select(requested, false))
  {
    if t in Select(requested, true) {
      var i :| 0 <= i < |Select(requested, true)| && Select(requested, true)[i] == t;
      assert IsExcelName(t);
    }
    if t in Select(requested, false) {
      var i :| 0 <= i < |Select(requested, false)| && Select(requested, false)[i] == t;
      assert !IsExcelName(t);
    }
  }

  /**
    The two lists partition the request: each holds exactly the names of
    its kind, as often as they were requested and in request order; no name
    is in both, and together they hold every requested name.
   */
  lemma Partition(requested: seq<string>)
    ensures var excel, pg := ExcelTableNames(requested), PgTableNames(requested);
      && (forall t :: multiset(excel)[t] == if IsExcelName(t) then multiset(requested)[t] else 0)
      && (forall t :: multiset(pg)[t] == if IsExcelName(t) then 0 else multiset(requested)[t])
      && IsSubsequence(excel, requested) && IsSubsequence(pg, requested)
      && (forall t :: !(t in excel && t in pg))
      && multiset(excel) + multiset(pg) == multiset(requested)
      && |excel| + |pg| == |requested|
  {
    SelectCounts(requested, true);
    SelectCounts(requested, false);
    SelectInOrder(requested, true);
    SelectInOrder(requested, false);
    SelectSplits(requested);
    forall t ensures !(t in ExcelTableNames(requested) && t in PgTableNames(requested)) {
      SelectDisjoint(requested, t);
    }
  }

  /** Every name the table manager hands out is routed to the uploaded tables. */
  lemma UploadedNamesAreExcel(originalFilename: string, tableId: string)
    ensures IsExcelName(ExcelTables.TableName(originalFilename, tableId))
    ensures ExcelTables.TableName(originalFilename, tableId) in
            ExcelTableNames([ExcelTables.TableName(originalFilename, tableId)])
  {
    var name := ExcelTables.TableName(originalFilename, tableId);
    assert name[..|ExcelPrefix|] == ExcelPrefix;
  }

  // ---------------------------------------------------------------------
  // Renaming result columns back
  // ---------------------------------------------------------------------

  /** A mapping's items, in dictionary order, turned round (cleaned name to original); for a repeated value the last key wins. */
  function ReverseOf(items: seq<(string, string)>): (rev: map<string, string>)
    ensures forall i :: 0 <= i < |items| ==> items[i].1 in rev
    ensures forall v :: v in rev ==> (rev[v], v) in items
  {
    if items == [] then map[]
    else
      var last := items[|items| - 1];
      var front := items[..|items| - 1];
      var rev := ReverseOf(front)[last.1 := last.0];
      assert forall v :: v in rev && v != last.1 ==> (rev[v], v) in front;
      rev
  }

  /** The last item with a given value decides what that value is renamed back to. */
  lemma {:induction false} ReverseOfLastWins(items: seq<(string, string)>, i: nat)
    requires i < |items|
    requires forall j :: i < j < |items| ==> items[j].1 != items[i].1
    ensures ReverseOf(items)[items[i].1] == items[i].0
  {
    if i < |items| - 1 {
      var front := items[..|items| - 1];
      ReverseOfLastWins(front, i);
    }
  }

  /** The reversed mappings of the queried tables merged in turn: a later table wins over an earlier one. */
  function MergedReverse(mappings: seq<seq<(string, string)>>): (rev: map<string, string>)
  {
    if mappings == [] then map[]
    else MergedReverse(mappings[..|mappings| - 1]) + ReverseOf(mappings[|mappings| - 1])
  }

  /** Each result column replaced by its original name when the merged reverse map has it, kept otherwise. */
  function RenameBack(columns: seq<string>, rev: map<string, string>): (out: seq<string>)
  {
    seq(|columns|, i requires 0 <= i < |columns| => if columns[i] in rev then rev[columns[i]] else columns[i])
  }

  /** The items of a mapping the table manager built: each original name with its cleaned name. */
  predicate Cleaned(items: seq<(string, string)>) {
    forall i :: 0 <= i < |items| ==> HasAlnum(items[i].0) && items[i].1 == CleanColumnName(items[i].0)
  }

  lemma {:induction false} MergedReverseCleaned(mappings: seq<seq<(string, string)>>)
    requires forall t :: 0 <= t < |mappings| ==> Cleaned(mappings[t])
    ensures forall v :: v in MergedReverse(mappings) ==>
      HasAlnum(MergedReverse(mappings)[v]) && CleanColumnName(MergedReverse(mappings)[v]) == v
    ensures forall t, i :: 0 <= t < |mappings| && 0 <= i < |mappings[t]| ==>
      mappings[t][i].1 in MergedReverse(mappings)
  {
    if mappings != [] {
      var front := mappings[..|mappings| - 1];
      assert forall t :: 0 <= t < |front| ==> Cleaned(front[t]);
      MergedReverseCleaned(front);
      var last := mappings[|mappings| - 1];
      var rev := MergedReverse(mappings);
      forall v | v in rev ensures HasAlnum(rev[v]) && CleanColumnName(rev[v]) == v {
        if v in ReverseOf(last) {
          assert (rev[v], v) in last;
          var j :| 0 <= j < |last| && last[j] == (rev[v], v);
          assert HasAlnum(last[j].0) && last[j].1 == CleanColumnName(last[j].0);
        } else {
          assert rev[v] == MergedReverse(front)[v];
        }
      }
      forall t, i | 0 <= t < |mappings| && 0 <= i < |mappings[t]| ensures mappings[t][i].1 in rev {
        if t < |mappings| - 1 {
          assert mappings[t] == front[t];
        }
      }
    }
  }

  /**
    Renaming back undoes the cleaning: a result column that is the cleaned
    name of some column of the queried uploads becomes an original column
    with that cleaned name; any other result column, and in particular
    every column that is not shaped like a cleaned name, is kept.
   */
  lemma RenameBackUndoesCleaning(columns: seq<string>, mappings: seq<seq<(string, string)>>)
    requires forall t :: 0 <= t < |mappings| ==> Cleaned(mappings[t])
    ensures var rev := MergedReverse(mappings);
      var out := RenameBack(columns, rev);
      && |out| == |columns|
      && (forall i :: 0 <= i < |columns| && columns[i] in rev ==>
            HasAlnum(out[i]) && CleanColumnName(out[i]) == columns[i])
      && (forall i :: 0 <= i < |columns| && columns[i] !in rev ==> out[i] == columns[i])
      && (forall i :: 0 <= i < |columns| && !IsCleanName(columns[i]) ==> out[i] == columns[i])
  {
    var rev := MergedReverse(mappings);
    MergedReverseCleaned(mappings);
    forall v | v in rev ensures IsCleanName(v) {
      assert HasAlnum(rev[v]) && CleanColumnName(rev[v]) == v;
      CleanNameFormat(rev[v]);
    }
  }

  /** Once renamed back, cleaning the result columns again gives the columns the query returned. */
  lemma RenameBackThenClean(columns: seq<string>, mappings: seq<seq<(string, string)>>, i: nat)
    requires forall t :: 0 <= t < |mappings| ==> Cleaned(mappings[t])
    requires i < |columns| && IsCleanName(columns[i])
    ensures var out := RenameBack(columns, MergedReverse(mappings));
      HasAlnum(out[i]) && CleanColumnName(out[i]) == columns[i]
  {
    var rev := MergedReverse(mappings);
    RenameBackUndoesCleaning(columns, mappings);
    if columns[i] !in rev {
      CleanShapeIsFixed(columns[i]);
    }
  }

}
