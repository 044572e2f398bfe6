/** The attendance history page (frontend/src/pages/Attendance.tsx): the
    filter over the loaded records, the summary counters, clearing the
    filters and the export request.
 */
module AttendancePage {

  import opened Wrappers
  import opened Text
  import opened Constants

  /** An `AttendanceRecord`; `iso` is its timestamp's `toISOString()`. */
  datatype Record = Record(id: string, employeeName: string, employeeArea: string, kind: string,
                           iso: string, confidence: real)

  /** The filter controls: the employee ("all" or a name) and the two
      date inputs ("" when empty, otherwise YYYY-MM-DD). */
  datatype Filters = Filters(employee: string, startDate: string, endDate: string)

  /** `timestamp.toISOString().split('T')[0]`. */
  function RecordDate(r: Record): (d: string)
    ensures d <= r.iso && 'T' !in d
    ensures d == r.iso || r.iso[|d|] == 'T'
  {
    Before(r.iso, 'T')
  }

  /** The test inside `filteredRecords`: the employee is "all" or a
      case-insensitive part of the name; the record's date is not before a
      non-empty start and not after a non-empty end, compared as strings. */
  predicate Visible(r: Record, f: Filters) {
    && (f.employee == "all" || Contains(Lower(r.employeeName), Lower(f.employee)))
    && (f.startDate == "" || !LexLess(RecordDate(r), f.startDate))
    && (f.endDate == "" || !LexLess(f.endDate, RecordDate(r)))
  }

  /** `filteredRecords`. */
  function FilterRecords(records: seq<Record>, f: Filters): (r: seq<Record>)
    ensures |r| <= |records|
    ensures forall x :: x in r <==> x in records && Visible(x, f)
    decreases |records|
  {
    if |records| == 0 then []
    else
      assert forall x :: x in records <==> x == records[0] || x in records[1..];
      (if Visible(records[0], f) then [records[0]] else []) + FilterRecords(records[1..], f)
  }

  /** The filter keeps the records' order: it works element by element. */
  lemma {:induction false} FilterRecordsSplits(a: seq<Record>, b: seq<Record>, f: Filters)
    ensures FilterRecords(a + b, f) == FilterRecords(a, f) + FilterRecords(b, f)
    decreases |a|
  {
    if |a| == 0 {
      assert a + b == b;
    } else {
      assert (a + b)[0] == a[0];
      assert (a + b)[1..] == a[1..] + b;
      FilterRecordsSplits(a[1..], b, f);
    }
  }

  /** Both date bounds are inclusive: a record dated on the start day
      passes the start test, and one dated on the end day the end test. */
  lemma BoundsInclusive(r: Record, f: Filters)
    ensures RecordDate(r) == f.startDate ==> !LexLess(RecordDate(r), f.startDate)
    ensures RecordDate(r) == f.endDate ==> !LexLess(f.endDate, RecordDate(r))
  {
    LexLessIrreflexive(RecordDate(r));
  }

  /** `filteredRecords.filter(r => r.type === kind).length`. */
  function CountKind(records: seq<Record>, kind: string): (n: nat)
    ensures n <= |records|
    ensures n == 0 <==> forall i :: 0 <= i < |records| ==> records[i].kind != kind
    ensures n == |records| <==> forall i :: 0 <= i < |records| ==> records[i].kind == kind
    decreases |records|
  {
    if |records| == 0 then 0
    else
      var rest := CountKind(records[1..], kind);
      assert forall i :: 1 <= i < |records| ==> records[i] == records[1..][i - 1];
      (if records[0].kind == kind then 1 else 0) + rest
  }

  /** The count over two lists is the sum of their counts. */
  lemma {:induction false} CountKindAppend(a: seq<Record>, b: seq<Record>, kind: string)
    ensures CountKind(a + b, kind) == CountKind(a, kind) + CountKind(b, kind)
    decreases |a|
  {
    if |a| > 0 {
      assert (a + b)[0] == a[0];
      assert (a + b)[1..] == a[1..] + b;
      CountKindAppend(a[1..], b, kind);
    } else {
      assert a + b == b;
    }
  }

  /** `new Set(filteredRecords.map(r => r.employeeName)).size`. */
  function UniqueEmployees(records: seq<Record>): (n: nat)
  {
    |set r | r in records :: r.employeeName|
  }

  /** Entries and exits together never exceed the listed records, and
      neither does the number of distinct employees. */
  lemma {:induction false} CountersBounded(records: seq<Record>)
    ensures CountKind(records, Entry) + CountKind(records, Exit) <= |records|
    ensures UniqueEmployees(records) <= |records|
    ensures |records| > 0 ==> UniqueEmployees(records) >= 1
    decreases |records|
  {
    if |records| > 0 {
      CountersBounded(records[1..]);
      var names := set r | r in records :: r.employeeName;
      var rest := set r | r in records[1..] :: r.employeeName;
      assert names == rest + {records[0].employeeName} by {
        forall n | n in names ensures n in rest + {records[0].employeeName} {
          var r :| r in records && r.employeeName == n;
          if r != records[0] {
            assert r in records[1..];
          }
        }
      }
      assert records[0].employeeName in names;
    }
  }

  /** `clearFilters()`. */
  const ClearedFilters: Filters := Filters("all", "", "")

  /** After clearing the filters every loaded record is listed again. */
  lemma {:induction false} ClearedFiltersShowAll(records: seq<Record>)
    ensures FilterRecords(records, ClearedFilters) == records
    decreases |records|
  {
    if |records| > 0 {
      ClearedFiltersShowAll(records[1..]);
    }
  }

  /** The export button is disabled while nothing is listed. */
  function ExportDisabled(records: seq<Record>, f: Filters): (disabled: bool)
    ensures disabled <==> forall x :: x in records ==> !Visible(x, f)
  {
    var listed := FilterRecords(records, f);
    assert |listed| > 0 ==> listed[0] in listed;
    |listed| == 0
  }

  /** The filters `exportData` sends to the backend: the employee only
      when it is not "all"; the dates as they are. */
  datatype ExportFilters = ExportFilters(employeeName: Option<string>, startDate: string, endDate: string)

  function ExportRequest(f: Filters): (e: ExportFilters)
    ensures e.employeeName.None? <==> f.employee == "all"
    ensures e.employeeName.Some? ==> e.employeeName.value == f.employee
    ensures e.startDate == f.startDate && e.endDate == f.endDate
  {
    ExportFilters(if f.employee != "all" then Some(f.employee) else None, f.startDate, f.endDate)
  }
}
