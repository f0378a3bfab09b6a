/**
 * The body of `updateCandidates` in scripts/update-candidates.js, without its I/O:
 * keep the rows whose `Status` is exactly "Approved", project each into a
 * response, and merge the responses onto the fixed roster.
 *
 * The merge emits one record per roster entry, in roster order. A roster entry
 * takes the FIRST response whose name and office equal its own after lower-casing;
 * name, party and office always come from the roster.
 */
module Reconcile {
  import opened Wrappers
  import opened Seqs
  import opened Text
  import opened Csv
  import opened Statehood

  /** One entry of the fixed roster. */
  datatype RosterEntry = RosterEntry(name: string, party: string, office: string)

  /** The seven free-text answers of a response (the `responses` object). */
  datatype Answers = Answers(
    statehoodSupport: string,
    topThreeActions: string,
    intendedActions: string,
    congressResponse: string,
    partners: string,
    voterInvolvement: string,
    additionalComments: string)

  /** An approved row projected into a response; `None` stands for `undefined` or `null`. */
  datatype Response = Response(
    name: Option<string>,
    office: Option<string>,
    statehoodSupport: Option<string>,
    responses: Answers)

  /** One output record; `responses == None` means the field is absent. */
  datatype MergedRecord = MergedRecord(
    name: string,
    party: string,
    office: string,
    responded: bool,
    supportsStatehood: Option<string>,
    responses: Option<Answers>)

  /** What a run produces: the records to write, or the early stop when nothing is approved. */
  datatype Outcome = Updated(candidates: seq<MergedRecord>) | NoApprovedResponses

  const STATUS_KEY: string := "Status"
  const APPROVED: string := "Approved"
  const NAME_KEY: string := "Name of candidate"
  const OFFICE_KEY: string := "Position running for?"
  const Q1_KEY: string := "1. Do you support DC Statehood?"
  // The headers of questions 2, 4 and 5 are written as concatenations that split at
  // their first line feed or comma, so that the verifier sees that character without
  // indexing deep into a long literal; each equals the header text character for character.
  const Q2_KEY: string :=
    "2. What are the top three actions you are most proud of having already taken for Statehood over the last two years? "
    + "\n\n" + "(Note: these can be professional or personal actions.) "
  const Q3_KEY: string := "3. What specific actions do you intend to take to promote DC Statehood and protect Home Rule, as a DC elected official?"
  const Q4_KEY: string := "4. If elected" + ", " + "how will you respond when Congress attempts to overturn DC laws or block DC's budget? Please name at least one specific action you would take."
  const Q5_KEY: string := "5. Name the top 2-3 partners you intend to work with in promoting Statehood" + ", " + "and what your relationship is with those partners today."
  const Q6_KEY: string := "6. How do you intend to involve DC voters and residents in the fight for Statehood?"
  const Q7_KEY: string := "7. Is there anything else you would like to share with DC voters about your stance on DC Statehood?"

  /** `BASE_CANDIDATES`. */
  const BASE_CANDIDATES: seq<RosterEntry> := [
      RosterEntry("Gordon Chaffin", "Democratic", "Delegate to the House of Representatives"),
      RosterEntry("Trent Holbrook", "Democratic", "Delegate to the House of Representatives"),
      RosterEntry("Robert L. Matthews", "Democratic", "Delegate to the House of Representatives"),
      RosterEntry("Brooke Pinto", "Democratic", "Delegate to the House of Representatives"),
      RosterEntry("Sandi Stevens", "Democratic", "Delegate to the House of Representatives"),
      RosterEntry("Robert White", "Democratic", "Delegate to the House of Representatives"),
      RosterEntry("Kelly Mikel Williams", "Democratic", "Delegate to the House of Representatives"),
      RosterEntry("Kinney Zalesne", "Democratic", "Delegate to the House of Representatives"),
      RosterEntry("Nelson Rimensnyder", "Republican", "Delegate to the House of Representatives"),
      RosterEntry("Denise Rosado", "Republican", "Delegate to the House of Representatives"),
      RosterEntry("Kymone Freeman", "Statehood Green", "Delegate to the House of Representatives"),
      RosterEntry("Yaida Ford", "Democratic", "Mayor"),
      RosterEntry("Janeese Lewis George", "Democratic", "Mayor"),
      RosterEntry("Gary Goodweather", "Democratic", "Mayor"),
      RosterEntry("Kathy Henderson", "Democratic", "Mayor"),
      RosterEntry("Ernest Johnson", "Democratic", "Mayor"),
      RosterEntry("Regan Jones", "Democratic", "Mayor"),
      RosterEntry("Stanley V Lawson Sr", "Democratic", "Mayor"),
      RosterEntry("Terri \"Ginger\" Little", "Democratic", "Mayor"),
      RosterEntry("Kenyan R. McDuffie", "Democratic", "Mayor"),
      RosterEntry("Anthony Muhammad", "Democratic", "Mayor"),
      RosterEntry("Myrtle Patricia Alexander", "Republican", "Mayor"),
      RosterEntry("Christopher E. Rossi", "Republican", "Mayor"),
      RosterEntry("Muhsin Boe Umar", "Statehood Green", "Mayor"),
      RosterEntry("Brian L. Schwalb", "Democratic", "Attorney General"),
      RosterEntry("J.P. Szymkowicz", "Democratic", "Attorney General"),
      RosterEntry("Manuel Rivera", "Republican", "Attorney General"),
      RosterEntry("Phil Mendelson", "Democratic", "Council Chairman"),
      RosterEntry("Kevin B. Chavous", "Democratic", "At-Large Council Member"),
      RosterEntry("Dwight Davis", "Democratic", "At-Large Council Member"),
      RosterEntry("Dyana Forester", "Democratic", "At-Large Council Member"),
      RosterEntry("Fred Hill", "Democratic", "At-Large Council Member"),
      RosterEntry("Joe Jackson", "Democratic", "At-Large Council Member"),
      RosterEntry("Leniqua'dominique Jenkins", "Democratic", "At-Large Council Member"),
      RosterEntry("Candace Tiana Nelson", "Democratic", "At-Large Council Member"),
      RosterEntry("Oye Owolewa", "Democratic", "At-Large Council Member"),
      RosterEntry("Lisa Raymond", "Democratic", "At-Large Council Member"),
      RosterEntry("Patricia Stamper", "Democratic", "At-Large Council Member"),
      RosterEntry("Darrell Green", "Republican", "At-Large Council Member"),
      RosterEntry("Rashida Brown", "Democratic", "Ward 1 Council Member"),
      RosterEntry("Terry Lynch", "Democratic", "Ward 1 Council Member"),
      RosterEntry("Aparna Raj", "Democratic", "Ward 1 Council Member"),
      RosterEntry("Jackie Reyes Yanes", "Democratic", "Ward 1 Council Member"),
      RosterEntry("Miguel Trindade Deramo", "Democratic", "Ward 1 Council Member"),
      RosterEntry("Jett James Jasper", "Republican", "Ward 1 Council Member"),
      RosterEntry("Bernita Carmichael", "Democratic", "Ward 5 Council Member"),
      RosterEntry("Zachary Parker", "Democratic", "Ward 5 Council Member"),
      RosterEntry("Jeffrey Kihien-Palza", "Republican", "Ward 5 Council Member"),
      RosterEntry("Charles Allen", "Democratic", "Ward 6 Council Member"),
      RosterEntry("Michael Murphy", "Democratic", "Ward 6 Council Member"),
      RosterEntry("Gloria Ann Nauden", "Democratic", "Ward 6 Council Member"),
      RosterEntry("Jorge Rice", "Republican", "Ward 6 Council Member"),
      RosterEntry("Markus Batchelor", "Democratic", "United States Senator"),
      RosterEntry("Robert Simmons", "Republican", "United States Senator"),
      RosterEntry("Milton Hardy", "Republican", "United States Representative")
    ]

  // ---------------------------------------------------------------------------
  // Approval filter
  // ---------------------------------------------------------------------------

  /** `row['Status'] === 'Approved'`: present and exactly equal, with no trimming or case folding. */
  predicate IsApproved(row: Row) {
    STATUS_KEY in row && row[STATUS_KEY] == APPROVED
  }

  /** `rows.filter(row => row['Status'] === 'Approved')`. */
  function Approved(rows: seq<Row>): seq<Row> {
    Filter(rows, IsApproved)
  }

  /**
   * The approval filter keeps exactly the rows whose status is "Approved",
   * every copy of each, and keeps them in input order.
   */
  lemma ApprovalFilter(rows: seq<Row>)
    ensures IsSubseq(Approved(rows), rows)
    ensures forall i :: 0 <= i < |Approved(rows)| ==> Approved(rows)[i][STATUS_KEY] == APPROVED
    ensures forall r :: r in rows && IsApproved(r) ==> r in Approved(rows)
    ensures |Approved(rows)| == 0 <==> forall i :: 0 <= i < |rows| ==> !IsApproved(rows[i])
    ensures forall r :: multiset(Approved(rows))[r] == if IsApproved(r) then multiset(rows)[r] else 0
  {
    FilterIsSubseq(rows, IsApproved);
    FilterCounts(rows, IsApproved);
    if |Approved(rows)| == 0 {
      forall i | 0 <= i < |rows|
        ensures !IsApproved(rows[i])
      {
        assert rows[i] in rows;
      }
    }
  }

  // ---------------------------------------------------------------------------
  // Projection
  // ---------------------------------------------------------------------------

  /** `row[key]`: `None` for `undefined`. */
  function Cell(row: Row, key: string): Option<string> {
    if key in row then Some(row[key]) else None
  }

  /** `row[key]?.trim()`. */
  function TrimmedCell(row: Row, key: string): Option<string> {
    if key in row then Some(Trim(row[key])) else None
  }

  /** `row[key]?.trim() || ''`. */
  function Answer(row: Row, key: string): string {
    TrimmedCell(row, key).GetOr("")
  }

  /** The `approved.map(row => ({ ... }))` callback. */
  function Project(row: Row): Response {
    Response(
      TrimmedCell(row, NAME_KEY),
      TrimmedCell(row, OFFICE_KEY),
      ParseStatehoodAnswer(Cell(row, Q1_KEY)),
      Answers(
        Answer(row, Q1_KEY),
        Answer(row, Q2_KEY),
        Answer(row, Q3_KEY),
        Answer(row, Q4_KEY),
        Answer(row, Q5_KEY),
        Answer(row, Q6_KEY),
        Answer(row, Q7_KEY)))
  }

  /** No white space at either end. */
  predicate Trimmed(s: string) {
    |s| == 0 || (!IsSpace(s[0]) && !IsSpace(s[|s| - 1]))
  }

  predicate AllTrimmed(a: Answers) {
    && Trimmed(a.statehoodSupport) && Trimmed(a.topThreeActions) && Trimmed(a.intendedActions)
    && Trimmed(a.congressResponse) && Trimmed(a.partners) && Trimmed(a.voterInvolvement)
    && Trimmed(a.additionalComments)
  }

  /** A trimmed cell is undefined exactly when its column is missing, and is trimmed text otherwise. */
  lemma TrimmedCellDefaults(row: Row, key: string)
    ensures TrimmedCell(row, key).None? <==> key !in row
    ensures TrimmedCell(row, key).Some? ==>
              Trimmed(TrimmedCell(row, key).value) && Trim(TrimmedCell(row, key).value) == Trim(row[key])
    ensures Trimmed(Answer(row, key))
    ensures key !in row ==> Answer(row, key) == ""
  {
    if key in row {
      TrimIdempotent(row[key]);
    }
  }

  /**
   * Projection defaults: a missing column gives an undefined name or office and an
   * empty answer; every string of a response is trimmed; a present name or office is
   * the cell's own text up to surrounding white space.
   */
  lemma ProjectionDefaults(row: Row)
    ensures Project(row).name.None? <==> NAME_KEY !in row
    ensures Project(row).office.None? <==> OFFICE_KEY !in row
    ensures Project(row).name.Some? ==>
              Trimmed(Project(row).name.value) && Trim(Project(row).name.value) == Trim(row[NAME_KEY])
    ensures Project(row).office.Some? ==>
              Trimmed(Project(row).office.value) && Trim(Project(row).office.value) == Trim(row[OFFICE_KEY])
    ensures AllTrimmed(Project(row).responses)
    ensures Q1_KEY !in row ==> Project(row).responses.statehoodSupport == "" && Project(row).statehoodSupport.None?
    ensures Q2_KEY !in row ==> Project(row).responses.topThreeActions == ""
    ensures Q3_KEY !in row ==> Project(row).responses.intendedActions == ""
    ensures Q4_KEY !in row ==> Project(row).responses.congressResponse == ""
    ensures Q5_KEY !in row ==> Project(row).responses.partners == ""
    ensures Q6_KEY !in row ==> Project(row).responses.voterInvolvement == ""
    ensures Q7_KEY !in row ==> Project(row).responses.additionalComments == ""
  {
    TrimmedCellDefaults(row, NAME_KEY);
    TrimmedCellDefaults(row, OFFICE_KEY);
    TrimmedCellDefaults(row, Q1_KEY);
    TrimmedCellDefaults(row, Q2_KEY);
    TrimmedCellDefaults(row, Q3_KEY);
    TrimmedCellDefaults(row, Q4_KEY);
    TrimmedCellDefaults(row, Q5_KEY);
    TrimmedCellDefaults(row, Q6_KEY);
    TrimmedCellDefaults(row, Q7_KEY);
  }

  /** The second question's header holds line feeds. */
  lemma Q2HasLineFeed()
    ensures '\n' in Q2_KEY
  {
    assert '\n' in "\n\n";
  }

  lemma Q3HasComma()
    ensures ',' in Q3_KEY
  {
    assert Q3_KEY[92] == ',';
  }

  lemma Q4HasComma()
    ensures ',' in Q4_KEY
  {
    assert ',' in ", ";
  }

  lemma Q5HasComma()
    ensures ',' in Q5_KEY
  {
    assert ',' in ", ";
  }

  /**
   * Questions 2 to 5 can never be read: their headers contain a line feed or a
   * comma, and no parsed key does, so those four answers are always empty.
   */
  lemma UnreadableQuestions(row: Row)
    requires WellFormedRow(row)
    ensures Q2_KEY !in row && Q3_KEY !in row && Q4_KEY !in row && Q5_KEY !in row
    ensures var a := Project(row).responses;
            a.topThreeActions == "" && a.intendedActions == "" && a.congressResponse == "" && a.partners == ""
  {
    Q2HasLineFeed();
    Q3HasComma();
    Q4HasComma();
    Q5HasComma();
  }

  // ---------------------------------------------------------------------------
  // Merge
  // ---------------------------------------------------------------------------

  /**
   * The `find` predicate: both name and office are defined and equal the roster's
   * after lower-casing (an undefined name or office never matches).
   */
  predicate Matches(r: Response, c: RosterEntry) {
    && r.name.Some? && Lower(r.name.value) == Lower(c.name)
    && r.office.Some? && Lower(r.office.value) == Lower(c.office)
  }

  /** The position `responses.find` stops at: the first matching response, if any. */
  function FirstMatch(rs: seq<Response>, c: RosterEntry): (r: Option<nat>)
    ensures r.Some? ==> r.value < |rs| && Matches(rs[r.value], c)
    ensures r.Some? ==> forall j :: 0 <= j < r.value ==> !Matches(rs[j], c)
    ensures r.None? <==> forall j :: 0 <= j < |rs| ==> !Matches(rs[j], c)
    decreases |rs|
  {
    if |rs| == 0 then None
    else if Matches(rs[0], c) then Some(0)
    else match FirstMatch(rs[1..], c)
      case Some(i) => Some(i + 1)
      case None => None
  }

  /** `responses.find(...)`: the first matching response itself. */
  function Find(rs: seq<Response>, c: RosterEntry): Option<Response> {
    match FirstMatch(rs, c)
    case Some(i) => Some(rs[i])
    case None => None
  }

  /** The record for one roster entry, given what `find` returned. */
  function RecordFor(c: RosterEntry, found: Option<Response>): MergedRecord {
    match found
    case Some(r) => MergedRecord(c.name, c.party, c.office, true, r.statehoodSupport, Some(r.responses))
    case None => MergedRecord(c.name, c.party, c.office, false, None, None)
  }

  /** The `BASE_CANDIDATES.map(candidate => ...)` step over any roster. */
  function Merge(roster: seq<RosterEntry>, rs: seq<Response>): (out: seq<MergedRecord>)
    ensures |out| == |roster|
    ensures forall i :: 0 <= i < |out| ==>
              out[i].name == roster[i].name && out[i].party == roster[i].party && out[i].office == roster[i].office
    ensures forall i :: 0 <= i < |out| ==>
              (out[i].responded <==> exists j :: 0 <= j < |rs| && Matches(rs[j], roster[i]))
    ensures forall i :: 0 <= i < |out| && out[i].responded ==>
              exists j :: 0 <= j < |rs| && Matches(rs[j], roster[i])
                          && (forall k :: 0 <= k < j ==> !Matches(rs[k], roster[i]))
                          && out[i].supportsStatehood == rs[j].statehoodSupport
                          && out[i].responses == Some(rs[j].responses)
    ensures forall i :: 0 <= i < |out| && !out[i].responded ==>
              out[i].supportsStatehood.None? && out[i].responses.None?
  {
    seq(|roster|, i requires 0 <= i < |roster| => RecordFor(roster[i], Find(rs, roster[i])))
  }

  /** A position that matches with no match before it is where `find` stops. */
  lemma FirstMatchIs(rs: seq<Response>, c: RosterEntry, i: nat)
    requires i < |rs| && Matches(rs[i], c)
    requires forall j :: 0 <= j < i ==> !Matches(rs[j], c)
    ensures FirstMatch(rs, c) == Some(i)
  {
  }

  /** `find` over a concatenation looks in the second part only when the first has no match. */
  lemma FindAppend(a: seq<Response>, b: seq<Response>, c: RosterEntry)
    ensures Find(a + b, c) == if Find(a, c).Some? then Find(a, c) else Find(b, c)
  {
    match FirstMatch(a, c)
    case Some(i) =>
      FirstMatchIs(a + b, c, i);
    case None =>
      match FirstMatch(b, c)
      case Some(j) =>
        assert forall k :: 0 <= k < |a| ==> (a + b)[k] == a[k];
        FirstMatchIs(a + b, c, |a| + j);
      case None =>
        assert forall k :: 0 <= k < |a + b| ==> (a + b)[k] == if k < |a| then a[k] else b[k - |a|];
  }

  /** `find` skips a response that does not match. */
  lemma FindWithout(a: seq<Response>, r: Response, b: seq<Response>, c: RosterEntry)
    requires !Matches(r, c)
    ensures Find(a + ([r] + b), c) == Find(a + b, c)
  {
    FindAppend(a, [r] + b, c);
    FindAppend([r], b, c);
    FindAppend(a, b, c);
  }

  /** A response that matches no roster entry leaves no trace, wherever it stands. */
  lemma MergeIgnoresUnmatched(roster: seq<RosterEntry>, a: seq<Response>, r: Response, b: seq<Response>)
    requires forall i :: 0 <= i < |roster| ==> !Matches(r, roster[i])
    ensures Merge(roster, a + [r] + b) == Merge(roster, a + b)
  {
    var left := Merge(roster, a + [r] + b);
    var right := Merge(roster, a + b);
    assert a + [r] + b == a + ([r] + b);
    forall i | 0 <= i < |roster|
      ensures left[i] == right[i]
    {
      FindWithout(a, r, b, roster[i]);
    }
  }

  /**
   * First match wins: responses appended later never change a record that
   * already has a response.
   */
  lemma MergeFirstMatchWins(roster: seq<RosterEntry>, rs: seq<Response>, more: seq<Response>, i: nat)
    requires i < |roster| && Merge(roster, rs)[i].responded
    ensures Merge(roster, rs + more)[i] == Merge(roster, rs)[i]
  {
    FindAppend(rs, more, roster[i]);
  }

  // ---------------------------------------------------------------------------
  // A whole run
  // ---------------------------------------------------------------------------

  /** `updateCandidates` from the parsed text to the records it would write, over any roster. */
  function UpdateCandidates(text: string, roster: seq<RosterEntry>): Outcome {
    var approved := Approved(ParseCsv(text));
    if |approved| == 0 then NoApprovedResponses
    else Updated(Merge(roster, Map(approved, Project)))
  }

  /** The script's own run, over `BASE_CANDIDATES`. */
  function Run(text: string): Outcome {
    UpdateCandidates(text, BASE_CANDIDATES)
  }

  /** A run stops early exactly when no parsed row is approved. */
  lemma RunStops(text: string, roster: seq<RosterEntry>)
    ensures UpdateCandidates(text, roster).NoApprovedResponses? <==>
              forall i :: 0 <= i < |ParseCsv(text)| ==> !IsApproved(ParseCsv(text)[i])
  {
    ApprovalFilter(ParseCsv(text));
  }

  /** The answers to questions 2 to 5, whose headers the tokeniser cannot read, are empty. */
  predicate MiddleQuestionsEmpty(a: Answers) {
    a.topThreeActions == "" && a.intendedActions == "" && a.congressResponse == "" && a.partners == ""
  }

  /** Among well-formed rows, an approved row never yields an answer to questions 2 to 5. */
  lemma ApprovedLackQuestions(rows: seq<Row>)
    requires forall i :: 0 <= i < |rows| ==> WellFormedRow(rows[i])
    ensures var approved := Approved(rows);
            forall j :: 0 <= j < |approved| ==> MiddleQuestionsEmpty(Project(approved[j]).responses)
  {
    var approved := Approved(rows);
    forall j | 0 <= j < |approved|
      ensures MiddleQuestionsEmpty(Project(approved[j]).responses)
    {
      assert approved[j] in approved;
      UnreadableQuestions(approved[j]);
    }
  }

  /** An approved response never carries an answer to questions 2 to 5. */
  lemma ResponsesLackQuestions(text: string)
    ensures var rs := Map(Approved(ParseCsv(text)), Project);
            forall j :: 0 <= j < |rs| ==> MiddleQuestionsEmpty(rs[j].responses)
  {
    ParseCsvWellFormed(text);
    ApprovedLackQuestions(ParseCsv(text));
  }

  /** A merge of responses without answers to questions 2 to 5 has the roster's shape and no such answers. */
  lemma MergedShape(roster: seq<RosterEntry>, rs: seq<Response>, out: seq<MergedRecord>)
    requires forall j :: 0 <= j < |rs| ==> MiddleQuestionsEmpty(rs[j].responses)
    requires out == Merge(roster, rs)
    ensures |out| == |roster|
    ensures forall i :: 0 <= i < |out| ==>
              out[i].name == roster[i].name && out[i].party == roster[i].party && out[i].office == roster[i].office
    ensures forall i :: 0 <= i < |out| && out[i].responses.Some? ==> MiddleQuestionsEmpty(out[i].responses.value)
  {
    MergedQuestionsEmpty(roster, rs);
  }

  /** The merge carries only answers some response gave. */
  lemma MergedQuestionsEmpty(roster: seq<RosterEntry>, rs: seq<Response>)
    requires forall j :: 0 <= j < |rs| ==> MiddleQuestionsEmpty(rs[j].responses)
    ensures var out := Merge(roster, rs);
            forall i :: 0 <= i < |out| && out[i].responses.Some? ==> MiddleQuestionsEmpty(out[i].responses.value)
  {
    var out := Merge(roster, rs);
    forall i | 0 <= i < |out| && out[i].responses.Some?
      ensures MiddleQuestionsEmpty(out[i].responses.value)
    {
      assert out[i].responded;
      var j :| 0 <= j < |rs| && out[i].responses == Some(rs[j].responses);
    }
  }

  /**
   * A run stops early exactly when no parsed row is approved; otherwise it yields
   * one record per roster entry, in roster order, with the roster's identity fields,
   * and questions 2 to 5 are empty in every response it carries.
   */
  lemma RunShape(text: string, roster: seq<RosterEntry>)
    ensures UpdateCandidates(text, roster).NoApprovedResponses? <==>
              forall i :: 0 <= i < |ParseCsv(text)| ==> !IsApproved(ParseCsv(text)[i])
    ensures UpdateCandidates(text, roster).Updated? ==>
              var out := UpdateCandidates(text, roster).candidates;
              && |out| == |roster|
              && (forall i :: 0 <= i < |out| ==>
                    out[i].name == roster[i].name && out[i].party == roster[i].party && out[i].office == roster[i].office)
              && (forall i :: 0 <= i < |out| && out[i].responses.Some? ==>
                    var a := out[i].responses.value;
                    a.topThreeActions == "" && a.intendedActions == "" && a.congressResponse == "" && a.partners == "")
  {
    RunStops(text, roster);
    RunUpdatedShape(text, roster);
  }

  /** The records of a run that goes ahead have the roster's shape and no answers to questions 2 to 5. */
  lemma RunUpdatedShape(text: string, roster: seq<RosterEntry>)
    ensures UpdateCandidates(text, roster).Updated? ==>
              var out := UpdateCandidates(text, roster).candidates;
              && |out| == |roster|
              && (forall i :: 0 <= i < |out| ==>
                    out[i].name == roster[i].name && out[i].party == roster[i].party && out[i].office == roster[i].office)
              && (forall i :: 0 <= i < |out| && out[i].responses.Some? ==>
                    var a := out[i].responses.value;
                    a.topThreeActions == "" && a.intendedActions == "" && a.congressResponse == "" && a.partners == "")
  {
    if UpdateCandidates(text, roster).Updated? {
      var rs := Map(Approved(ParseCsv(text)), Project);
      ResponsesLackQuestions(text);
      MergedShape(roster, rs, UpdateCandidates(text, roster).candidates);
    }
  }

  /**
   * A roster entry is marked as having responded exactly when some approved row,
   * once projected, names it and its office up to letter case.
   */
  lemma ApprovedMatching(rows: seq<Row>, roster: seq<RosterEntry>, i: nat)
    requires i < |roster|
    ensures Merge(roster, Map(Approved(rows), Project))[i].responded <==>
              exists row :: row in rows && IsApproved(row) && Matches(Project(row), roster[i])
  {
    var approved := Approved(rows);
    var rs := Map(approved, Project);
    MapAt(approved, Project);
    var out := Merge(roster, rs);
    if out[i].responded {
      var j :| 0 <= j < |rs| && Matches(rs[j], roster[i]);
      RespondedHasRow(rows, roster[i], j);
    } else {
      UnrespondedHasNoRow(approved, rows, roster[i]);
    }
  }

  /** An approved response that matches comes from an approved row of the input that matches. */
  lemma RespondedHasRow(rows: seq<Row>, c: RosterEntry, j: nat)
    ensures j < |Approved(rows)| && Matches(Project(Approved(rows)[j]), c) ==>
              exists row :: row in rows && IsApproved(row) && Matches(Project(row), c)
  {
    var approved := Approved(rows);
    if j < |approved| {
      assert approved[j] in approved;
    }
  }

  lemma UnrespondedHasNoRow(approved: seq<Row>, rows: seq<Row>, c: RosterEntry)
    requires approved == Approved(rows)
    requires forall j :: 0 <= j < |approved| ==> !Matches(Project(approved[j]), c)
    ensures forall row :: row in rows && IsApproved(row) ==> !Matches(Project(row), c)
  {
    forall row | row in rows && IsApproved(row)
      ensures !Matches(Project(row), c)
    {
      assert row in approved;
    }
  }

  /** The same, for a whole run over a sheet's text. */
  lemma RunMatching(text: string, roster: seq<RosterEntry>, i: nat)
    requires i < |roster|
    ensures UpdateCandidates(text, roster).Updated? ==>
              (UpdateCandidates(text, roster).candidates[i].responded <==>
                 exists row :: row in ParseCsv(text) && IsApproved(row) && Matches(Project(row), roster[i]))
  {
    ApprovedMatching(ParseCsv(text), roster, i);
  }

  /** `s` and `t` have the same length and differ at most in the case of ASCII letters. */
  predicate SameUpToCase(s: string, t: string) {
    |s| == |t| && forall i :: 0 <= i < |s| ==> LowerChar(s[i]) == LowerChar(t[i])
  }

  /** `s` and `t` differ in length, or at a position where `s` holds something other than an ASCII letter. */
  predicate DiffersBeyondCase(s: string, t: string) {
    |s| != |t| || exists i :: 0 <= i < |s| && i < |t| && s[i] != t[i] && !IsAsciiLetter(s[i])
  }

  /** An ASCII letter, the only characters `LowerChar` changes or produces from another. */
  predicate IsAsciiLetter(c: char) {
    'A' <= c <= 'Z' || 'a' <= c <= 'z'
  }

  /**
   * Matching ignores letter case in both the name and the office, and nothing
   * else: a response matches exactly when both answers are present and each
   * equals the roster's text up to the case of its letters.
   */
  lemma MatchIgnoresCase(r: Response, c: RosterEntry)
    ensures Matches(r, c) <==>
              && r.name.Some? && SameUpToCase(r.name.value, c.name)
              && r.office.Some? && SameUpToCase(r.office.value, c.office)
  {
    if r.name.Some? {
      LowerAgree(r.name.value, c.name);
    }
    if r.office.Some? {
      LowerAgree(r.office.value, c.office);
    }
  }

  /** Two texts lower-case alike exactly when they differ only in letter case. */
  lemma LowerAgree(s: string, t: string)
    ensures Lower(s) == Lower(t) <==> SameUpToCase(s, t)
  {
    if Lower(s) == Lower(t) {
      forall i | 0 <= i < |s|
        ensures LowerChar(s[i]) == LowerChar(t[i])
      {
        assert Lower(s)[i] == Lower(t)[i];
      }
    }
  }

  /** A character that is not an ASCII letter lower-cases only from itself. */
  lemma LowerCharExact(a: char, b: char)
    requires !IsAsciiLetter(a) && a != b
    ensures LowerChar(a) != LowerChar(b)
  {
  }

  /**
   * Matching is exact otherwise: a name or office of another length, or one
   * that differs at a space, digit or punctuation mark, is no match.
   */
  lemma MatchIsExactOtherwise(r: Response, c: RosterEntry)
    ensures r.name.Some? && DiffersBeyondCase(r.name.value, c.name) ==> !Matches(r, c)
    ensures r.office.Some? && DiffersBeyondCase(r.office.value, c.office) ==> !Matches(r, c)
  {
    MatchIgnoresCase(r, c);
    if r.name.Some? && DiffersBeyondCase(r.name.value, c.name) && |r.name.value| == |c.name| {
      var i :| 0 <= i < |r.name.value| && i < |c.name| && r.name.value[i] != c.name[i] && !IsAsciiLetter(r.name.value[i]);
      LowerCharExact(r.name.value[i], c.name[i]);
    }
    if r.office.Some? && DiffersBeyondCase(r.office.value, c.office) && |r.office.value| == |c.office| {
      var i :| 0 <= i < |r.office.value| && i < |c.office| && r.office.value[i] != c.office[i] && !IsAsciiLetter(r.office.value[i]);
      LowerCharExact(r.office.value[i], c.office[i]);
    }
  }

  /** The script's run always writes exactly as many records as `BASE_CANDIDATES` holds. */
  lemma RunCardinality(text: string)
    ensures Run(text).Updated? ==> |Run(text).candidates| == |BASE_CANDIDATES| == 55
  {
  }

  // ---------------------------------------------------------------------------
  // The closing summary
  // ---------------------------------------------------------------------------

  /** The two counts of the closing summary: candidates with and without responses. */
  datatype Summary = Summary(withResponses: int, withoutResponses: int)

  /**
   * The counts as the script prints them: the number of approved responses, and
   * the roster size minus that number, whatever the merge matched.
   */
  function SummaryAsWritten(roster: seq<RosterEntry>, rs: seq<Response>): (s: Summary)
    ensures s.withResponses + s.withoutResponses == |roster|
    ensures s.withResponses == |rs|
  {
    Summary(|rs|, |roster| - |rs|)
  }

  function HasResponded(m: MergedRecord): bool {
    m.responded
  }

  function HasNotResponded(m: MergedRecord): bool {
    !m.responded
  }

  function AnyRecord(m: MergedRecord): bool {
    true
  }

  /** Some response matches roster entry `c`. */
  predicate AnyMatches(rs: seq<Response>, c: RosterEntry) {
    exists j :: 0 <= j < |rs| && Matches(rs[j], c)
  }

  /** The number of roster entries some response matches, counted entry by entry. */
  function MatchedCount(roster: seq<RosterEntry>, rs: seq<Response>): (n: nat)
    ensures n <= |roster|
    decreases |roster|
  {
    if |roster| == 0 then 0
    else (if AnyMatches(rs, roster[0]) then 1 else 0) + MatchedCount(roster[1..], rs)
  }

  /** No entry is matched exactly when the count is zero, and every entry exactly when it is the roster size. */
  lemma {:induction false} MatchedCountExtremes(roster: seq<RosterEntry>, rs: seq<Response>)
    ensures MatchedCount(roster, rs) == 0 <==> forall i :: 0 <= i < |roster| ==> !AnyMatches(rs, roster[i])
    ensures MatchedCount(roster, rs) == |roster| <==> forall i :: 0 <= i < |roster| ==> AnyMatches(rs, roster[i])
    decreases |roster|
  {
    if |roster| > 0 {
      var t := roster[1..];
      MatchedCountExtremes(t, rs);
      assert forall i :: 1 <= i < |roster| ==> roster[i] == t[i - 1];
      assert forall i :: 0 <= i < |t| ==> t[i] == roster[i + 1];
    }
  }

  /**
   * Records that have a response exactly where some response matches the roster
   * entry at the same position: those with a response are as many as the matched entries.
   */
  lemma {:induction false} RespondedCount(out: seq<MergedRecord>, roster: seq<RosterEntry>, rs: seq<Response>)
    requires |out| == |roster|
    requires forall i :: 0 <= i < |out| ==> (out[i].responded <==> AnyMatches(rs, roster[i]))
    ensures |Filter(out, HasResponded)| == MatchedCount(roster, rs)
    decreases |out|
  {
    if |out| > 0 {
      var t, rest := out[1..], roster[1..];
      assert out == [out[0]] + t;
      assert roster == [roster[0]] + rest;
      RespondedCount(t, rest, rs);
      RespondedCountStep(out[0], t, roster[0], rest, rs);
    }
  }

  /** The inductive step of RespondedCount: one more record in front of one more roster entry. */
  lemma RespondedCountStep(x: MergedRecord, t: seq<MergedRecord>, c: RosterEntry, rest: seq<RosterEntry>, rs: seq<Response>)
    requires x.responded <==> AnyMatches(rs, c)
    requires |Filter(t, HasResponded)| == MatchedCount(rest, rs)
    ensures |Filter([x] + t, HasResponded)| == MatchedCount([c] + rest, rs)
  {
    assert ([c] + rest)[1..] == rest;
    if x.responded {
      FilterKeep(x, t, HasResponded);
    } else {
      FilterDrop(x, t, HasResponded);
    }
  }

  /** Every merged record has a response or has none, so the two filters split the records. */
  lemma RespondedSplit(out: seq<MergedRecord>)
    ensures |Filter(out, HasResponded)| + |Filter(out, HasNotResponded)| == |out|
  {
    FilterAllPass(out, AnyRecord);
    FilterDisjointMultiset(out, HasResponded, HasNotResponded, AnyRecord);
    assert |multiset(Filter(out, AnyRecord))| == |out|;
  }

  /**
   * The counts of the merged records themselves: they add up to the roster size,
   * and the first is the number of roster entries some response matches.
   */
  function SummaryOf(roster: seq<RosterEntry>, rs: seq<Response>): (s: Summary)
    ensures 0 <= s.withResponses && 0 <= s.withoutResponses
    ensures s.withResponses + s.withoutResponses == |roster|
    ensures s.withResponses == MatchedCount(roster, rs)
  {
    var out := Merge(roster, rs);
    RespondedSplit(out);
    RespondedCount(out, roster, rs);
    Summary(|Filter(out, HasResponded)|, |Filter(out, HasNotResponded)|)
  }

  /**
   * The corrected counts split the roster: the records counted first are exactly
   * the records of entries some response matches, the first count is zero exactly
   * when no entry is matched, and the second exactly when every entry is.
   */
  lemma SummaryOfSplitsRoster(roster: seq<RosterEntry>, rs: seq<Response>)
    ensures forall m :: m in Filter(Merge(roster, rs), HasResponded) <==>
              exists i :: 0 <= i < |roster| && Merge(roster, rs)[i] == m && AnyMatches(rs, roster[i])
    ensures SummaryOf(roster, rs).withResponses == 0 <==>
              forall i :: 0 <= i < |roster| ==> !AnyMatches(rs, roster[i])
    ensures SummaryOf(roster, rs).withoutResponses == 0 <==>
              forall i :: 0 <= i < |roster| ==> AnyMatches(rs, roster[i])
  {
    RespondedRecords(roster, rs);
    MatchedCountExtremes(roster, rs);
  }

  /** The merged records with a response are exactly the records of roster entries some response matches. */
  lemma RespondedRecords(roster: seq<RosterEntry>, rs: seq<Response>)
    ensures forall m :: m in Filter(Merge(roster, rs), HasResponded) <==>
              exists i :: 0 <= i < |roster| && Merge(roster, rs)[i] == m && AnyMatches(rs, roster[i])
  {
    var out := Merge(roster, rs);
    forall m | m in Filter(out, HasResponded)
      ensures exists i :: 0 <= i < |roster| && out[i] == m && AnyMatches(rs, roster[i])
    {
      var i :| 0 <= i < |out| && out[i] == m;
      assert out[i].responded;
    }
    forall m | exists i :: 0 <= i < |roster| && out[i] == m && AnyMatches(rs, roster[i])
      ensures m in Filter(out, HasResponded)
    {
      var i :| 0 <= i < |roster| && out[i] == m && AnyMatches(rs, roster[i]);
      assert out[i] in out;
    }
  }

  /**
   * The printed counts are wrong as soon as a response matches no roster entry:
   * one unmatched response over a one-entry roster is reported as one candidate
   * with a response and none without, where the merge has none with and one without.
   */
  lemma SummaryAsWrittenMiscounts(answers: Answers)
    ensures var roster := [RosterEntry("A", "Democratic", "Mayor")];
            var rs := [Response(None, None, None, answers)];
            && SummaryAsWritten(roster, rs) == Summary(1, 0)
            && SummaryOf(roster, rs) == Summary(0, 1)
  {
    var roster := [RosterEntry("A", "Democratic", "Mayor")];
    var rs := [Response(None, None, None, answers)];
    var out := Merge(roster, rs);
    assert !out[0].responded;
    FilterCons(out[0], [], HasResponded);
    FilterCons(out[0], [], HasNotResponded);
    assert [out[0]] + [] == out;
  }

  /** With more approved responses than roster entries, the printed count without responses is negative. */
  lemma SummaryAsWrittenGoesNegative(answers: Answers)
    ensures SummaryAsWritten([], [Response(None, None, None, answers)]).withoutResponses == -1
  {
  }
}
