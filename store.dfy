/** The dedup store: the `applications` table of jobs.db.
    Its rows are kept in insertion order; the autoincrement `id` column is
    not modelled, and `vacancy_id` is the table's UNIQUE column. */
module Store {

  type VacancyId = string

  /** One row of the table: (vacancy_id, company_id, status). */
  datatype Application = Application(vacancyId: VacancyId, companyId: string, status: string)

  /** The only status the submitter ever writes. */
  const APPLIED_STATUS: string := "applied"

  /** The row inserted after a successful submission: the company is left empty. */
  function Record(id: VacancyId): (row: Application)
  {
    Application(id, "", APPLIED_STATUS)
  }

  /** `SELECT * FROM applications WHERE vacancy_id = ?` returned a row. */
  function IsAlreadyApplied(rows: seq<Application>, id: VacancyId): (found: bool)
    ensures found <==> exists k :: 0 <= k < |rows| && rows[k].vacancyId == id
  {
    if rows == [] then false
    else if rows[0].vacancyId == id then true
    else
      var rest := IsAlreadyApplied(rows[1..], id);
      assert rest ==> exists k :: 0 <= k < |rows[1..]| && rows[1..][k].vacancyId == id;
      assert (exists k :: 0 <= k < |rows| && rows[k].vacancyId == id) ==>
             exists k :: 0 <= k < |rows[1..]| && rows[1..][k].vacancyId == id;
      rest
  }

  /** The UNIQUE constraint on `vacancy_id`: no id occurs in two rows. */
  ghost predicate UniqueIds(rows: seq<Application>)
  {
    forall i, j :: 0 <= i < j < |rows| ==> rows[i].vacancyId != rows[j].vacancyId
  }

  /** Inserting the record of an id the lookup did not find never violates the
      UNIQUE constraint, so the INSERT of a successful submission never fails. */
  lemma InsertKeepsUnique(rows: seq<Application>, id: VacancyId)
    requires !IsAlreadyApplied(rows, id)
    ensures UniqueIds(rows) ==> UniqueIds(rows + [Record(id)])
    ensures IsAlreadyApplied(rows + [Record(id)], id)
  {
    var rows' := rows + [Record(id)];
    assert rows'[|rows|].vacancyId == id;
    if UniqueIds(rows) {
      forall i, j | 0 <= i < j < |rows'|
        ensures rows'[i].vacancyId != rows'[j].vacancyId
      {
        if j == |rows| {
          assert rows'[i] == rows[i];
        }
      }
    }
  }

  /** Appending rows keeps every id that was already stored. */
  lemma AppendKeepsIds(rows: seq<Application>, extra: seq<Application>, id: VacancyId)
    requires IsAlreadyApplied(rows, id)
    ensures IsAlreadyApplied(rows + extra, id)
  {
    var k :| 0 <= k < |rows| && rows[k].vacancyId == id;
    assert (rows + extra)[k] == rows[k];
  }
}
