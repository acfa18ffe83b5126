/**
 * Schema introspection for the overview query: which column of the
 * Evaluation table refers to the subject, and which columns of the
 * EvaluationStats table carry the response count, the invitation count and
 * a precomputed response percentage. The inputs are the column names that
 * `PRAGMA table_info` lists, in table order.
 */
module SchemaResolver {
  import opened Wrappers

  // ---------------------------------------------------------------------
  // Subject reference column (Evaluation table)
  // ---------------------------------------------------------------------

  /** The recognised subject-reference columns, highest priority first. */
  const SubjectColumns: seq<string> := ["subject_code", "subject", "subject_id"]

  const NoSubjectColumn: string := "Evaluation table does not contain a subject reference column"

  /** The chosen column, and whether the query must join Subject on its id. */
  datatype SubjectRef = SubjectRef(column: string, joinSubject: bool)

  /**
   * The subject reference of a schema: the first of SubjectColumns that the
   * Evaluation table has; only `subject_id` needs the join through Subject.
   */
  function SubjectRefOf(evalCols: seq<string>): (r: Result<SubjectRef>)
    ensures r.Err? <==> forall c :: c in SubjectColumns ==> c !in evalCols
    ensures r.Err? ==> r.error == NoSubjectColumn
    ensures r.Ok? ==>
      exists k :: 0 <= k < |SubjectColumns| && r.value.column == SubjectColumns[k] &&
        r.value.column in evalCols &&
        forall j :: 0 <= j < k ==> SubjectColumns[j] !in evalCols
    ensures r.Ok? ==> (r.value.joinSubject <==> r.value.column == "subject_id")
  {
    assert SubjectColumns[0] == "subject_code" && SubjectColumns[1] == "subject";
    assert SubjectColumns[2] == "subject_id";
    if "subject_code" in evalCols then Ok(SubjectRef("subject_code", false))
    else if "subject" in evalCols then Ok(SubjectRef("subject", false))
    else if "subject_id" in evalCols then Ok(SubjectRef("subject_id", true))
    else Err(NoSubjectColumn)
  }

  /** The if/elif chain that picks the column, then the failure when none was found. */
  method ResolveSubjectRef(evalCols: seq<string>) returns (r: Result<SubjectRef>)
    ensures r == SubjectRefOf(evalCols)
  {
    var evalSubjectCol: Option<string> := None;
    var joinSubject := false;
    if "subject_code" in evalCols {
      evalSubjectCol := Some("subject_code");
    } else if "subject" in evalCols {
      evalSubjectCol := Some("subject");
    } else if "subject_id" in evalCols {
      evalSubjectCol := Some("subject_id");
      joinSubject := true;
    }
    if evalSubjectCol.None? {
      return Err(NoSubjectColumn);
    }
    r := Ok(SubjectRef(evalSubjectCol.value, joinSubject));
  }

  // ---------------------------------------------------------------------
  // Statistics columns (EvaluationStats table)
  // ---------------------------------------------------------------------

  /** ASCII lower case; other characters are left as they are. */
  function LowerChar(c: char): char
  {
    if 'A' <= c <= 'Z' then (c as int + 32) as char else c
  }

  function Lower(s: string): (r: string)
    ensures |r| == |s|
    ensures forall i :: 0 <= i < |s| ==> r[i] == LowerChar(s[i])
  {
    if s == [] then "" else [LowerChar(s[0])] + Lower(s[1..])
  }

  lemma LowerIdempotent(s: string)
    ensures Lower(Lower(s)) == Lower(s)
  {
    assert forall i :: 0 <= i < |s| ==> Lower(Lower(s))[i] == Lower(s)[i];
  }

  /** The logical statistics fields. */
  datatype StatsField = Responses | Invited | Percent

  const ResponsesAliases: set<string> := {"num_responses", "responses", "answered"}
  const InvitedAliases: set<string> := {"num_invited", "invited"}
  const PercentAliases: set<string> :=
    {"response_percent", "response_percentage", "percent", "percent_response"}

  /** The field a column name stands for, compared in lower case. */
  function AliasField(name: string): (f: Option<StatsField>)
    ensures f.Some? ==> name != ""
  {
    var lname := Lower(name);
    if lname in ResponsesAliases then Some(Responses)
    else if lname in InvitedAliases then Some(Invited)
    else if lname in PercentAliases then Some(Percent)
    else None
  }

  /** Matching ignores case: a name and its lower-cased form mean the same field. */
  lemma AliasFieldIgnoresCase(name: string)
    ensures AliasField(Lower(name)) == AliasField(name)
  {
    LowerIdempotent(name);
  }

  /** The last column of `cols` that stands for `field`, with its own spelling. */
  function LastMatch(cols: seq<string>, field: StatsField): (r: Option<string>)
    ensures r.Some? ==> r.value in cols && AliasField(r.value) == Some(field)
  {
    if cols == [] then None
    else if AliasField(cols[|cols| - 1]) == Some(field) then Some(cols[|cols| - 1])
    else LastMatch(cols[..|cols| - 1], field)
  }

  /** LastMatch finds a column exactly when one matches, and no later column matches. */
  lemma {:induction false} LastMatchIsLast(cols: seq<string>, field: StatsField)
    ensures LastMatch(cols, field).None? <==>
      forall i :: 0 <= i < |cols| ==> AliasField(cols[i]) != Some(field)
    ensures LastMatch(cols, field).Some? ==>
      exists k :: 0 <= k < |cols| && cols[k] == LastMatch(cols, field).value &&
        AliasField(cols[k]) == Some(field) &&
        forall j :: k < j < |cols| ==> AliasField(cols[j]) != Some(field)
  {
    if cols != [] {
      var n := |cols| - 1;
      var init := cols[..n];
      LastMatchIsLast(init, field);
      if AliasField(cols[n]) != Some(field) {
        assert LastMatch(cols, field) == LastMatch(init, field);
        if LastMatch(init, field).Some? {
          var k :| 0 <= k < n && init[k] == LastMatch(init, field).value &&
            AliasField(init[k]) == Some(field) &&
            forall j :: k < j < n ==> AliasField(init[j]) != Some(field);
          assert cols[k] == init[k];
          assert forall j :: k < j < |cols| ==> AliasField(cols[j]) != Some(field) by {
            forall j | k < j < |cols| ensures AliasField(cols[j]) != Some(field) {
              if j < n {
                assert cols[j] == init[j];
              }
            }
          }
        } else {
          forall i | 0 <= i < |cols| ensures AliasField(cols[i]) != Some(field) {
            if i < n {
              assert cols[i] == init[i];
            }
          }
        }
      }
    }
  }

  /** The resolved statistics columns, each named as the table spells it. */
  datatype StatsColumns = StatsColumns(responses: Option<string>, invited: Option<string>, percent: Option<string>)

  /**
   * The resolution of a statistics schema: per field, the last matching
   * column. A column stands for at most one field, so no two fields share
   * a column.
   */
  function StatsColumnsOf(statCols: seq<string>): (sc: StatsColumns)
    ensures sc.responses.Some? ==>
      sc.responses.value in statCols && AliasField(sc.responses.value) == Some(Responses)
    ensures sc.invited.Some? ==>
      sc.invited.value in statCols && AliasField(sc.invited.value) == Some(Invited)
    ensures sc.percent.Some? ==>
      sc.percent.value in statCols && AliasField(sc.percent.value) == Some(Percent)
    ensures sc.responses.Some? && sc.invited.Some? ==> sc.responses.value != sc.invited.value
    ensures sc.responses.Some? && sc.percent.Some? ==> sc.responses.value != sc.percent.value
    ensures sc.invited.Some? && sc.percent.Some? ==> sc.invited.value != sc.percent.value
  {
    StatsColumns(LastMatch(statCols, Responses), LastMatch(statCols, Invited), LastMatch(statCols, Percent))
  }

  /** The loop over the table's columns; a later matching column replaces an earlier one. */
  method ResolveStatsColumns(statCols: seq<string>) returns (sc: StatsColumns)
    ensures sc == StatsColumnsOf(statCols)
  {
    var respCol: Option<string> := None;
    var invitedCol: Option<string> := None;
    var percentCol: Option<string> := None;
    for i := 0 to |statCols|
      invariant respCol == LastMatch(statCols[..i], Responses)
      invariant invitedCol == LastMatch(statCols[..i], Invited)
      invariant percentCol == LastMatch(statCols[..i], Percent)
    {
      var name := statCols[i];
      assert statCols[..i + 1][..i] == statCols[..i];
      match AliasField(name)
      case Some(Responses) => respCol := Some(name);
      case Some(Invited) => invitedCol := Some(name);
      case Some(Percent) => percentCol := Some(name);
      case None =>
    }
    assert statCols[..|statCols|] == statCols;
    sc := StatsColumns(respCol, invitedCol, percentCol);
  }
}
