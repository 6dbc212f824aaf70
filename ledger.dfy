/**
 * The daily attendance ledger (mark_attendance and the "View Attendance"
 * step of app.py).
 *
 * A day's ledger is the table of (Name, Timestamp) rows kept in
 * Attendance/Attendance_<DD-MM-YYYY>.csv. The attendance directory is
 * modelled as a map from file path to the rows stored there; a path that is
 * not in the map is a file that does not exist. The clock is not read: the
 * date string and the time string are parameters.
 */
module Ledger {

  import opened Wrappers

  /** One row of a ledger. */
  datatype Entry = Entry(name: string, timestamp: string)

  /** The rows of one day's ledger, in file order. */
  type Sheet = seq<Entry>

  /** What marking a name reports: a new row was written, or the name was
      already on the day's ledger. */
  datatype MarkStatus = Marked | AlreadyMarked

  datatype MarkOutcome = MarkOutcome(sheet: Sheet, status: MarkStatus)

  const AttendanceDir: string := "Attendance"

  /** The `Name` column of a ledger. */
  function NameColumn(sheet: Sheet): seq<string>
  {
    seq(|sheet|, i requires 0 <= i < |sheet| => sheet[i].name)
  }

  ghost predicate Distinct(names: seq<string>)
  {
    forall i, j :: 0 <= i < j < |names| ==> names[i] != names[j]
  }

  /** The file name of the ledger of the day written `date` (DD-MM-YYYY). */
  function LedgerFileName(date: string): string
  {
    "Attendance_" + date + ".csv"
  }

  /** `os.path.join(ATTENDANCE_DIR, ...)`, with "/" as the separator: a CSV
      file inside the attendance directory whose name carries the date. */
  function LedgerPath(date: string): (path: string)
    ensures |path| == |AttendanceDir| + 1 + |"Attendance_"| + |date| + |".csv"|
    ensures path[..|AttendanceDir| + 1] == AttendanceDir + "/"
    ensures path[|AttendanceDir| + 1..|AttendanceDir| + 1 + |"Attendance_"|] == "Attendance_"
    ensures path[|path| - 4..] == ".csv"
    ensures path[|AttendanceDir| + 1 + |"Attendance_"|..|path| - 4] == date
  {
    AttendanceDir + "/" + LedgerFileName(date)
  }

  /** Different dates are kept in different files. */
  lemma LedgerPathInjective(d1: string, d2: string)
    requires LedgerPath(d1) == LedgerPath(d2)
    ensures d1 == d2
  {
    var prefix := AttendanceDir + "/" + "Attendance_";
    var p1, p2 := LedgerPath(d1), LedgerPath(d2);
    assert p1 == prefix + d1 + ".csv";
    assert p2 == prefix + d2 + ".csv";
    assert p1[|prefix|..|p1| - 4] == d1;
    assert p2[|prefix|..|p2| - 4] == d2;
  }

  /** The first timestamp recorded for `name`, or None when it is absent. */
  function TimestampOf(sheet: Sheet, name: string): (t: Option<string>)
    ensures t.Some? <==> name in NameColumn(sheet)
    ensures t.Some? ==> exists i :: 0 <= i < |sheet| && sheet[i] == Entry(name, t.value)
                                    && name !in NameColumn(sheet[..i])
  {
    if sheet == [] then None
    else if sheet[0].name == name then
      assert NameColumn(sheet)[0] == name;
      assert sheet[0] == Entry(name, sheet[0].timestamp) && NameColumn(sheet[..0]) == [];
      Some(sheet[0].timestamp)
    else
      assert NameColumn(sheet) == [sheet[0].name] + NameColumn(sheet[1..]);
      var rest := TimestampOf(sheet[1..], name);
      if rest.Some? then
        var i :| 0 <= i < |sheet[1..]| && sheet[1..][i] == Entry(name, rest.value)
                 && name !in NameColumn(sheet[1..][..i]);
        assert sheet[i + 1] == Entry(name, rest.value);
        assert NameColumn(sheet[..i + 1]) == [sheet[0].name] + NameColumn(sheet[1..][..i]);
        rest
      else
        rest
  }

  /** The read-modify-append of mark_attendance on one day's rows: a name not
      yet in the Name column gets one new row at the end; otherwise the rows
      are left as they are. */
  function MarkSheet(sheet: Sheet, name: string, time: string): (r: MarkOutcome)
    ensures r.status == Marked <==> name !in NameColumn(sheet)
    ensures name in NameColumn(r.sheet)
    ensures sheet <= r.sheet
    ensures |r.sheet| == |sheet| + (if r.status == Marked then 1 else 0)
    ensures r.status == Marked ==> r.sheet[|sheet|] == Entry(name, time)
  {
    if name !in NameColumn(sheet) then
      var appended := sheet + [Entry(name, time)];
      assert NameColumn(appended)[|sheet|] == name;
      MarkOutcome(appended, Marked)
    else
      MarkOutcome(sheet, AlreadyMarked)
  }

  lemma NameColumnAppend(sheet: Sheet, e: Entry)
    ensures NameColumn(sheet + [e]) == NameColumn(sheet) + [e.name]
  {
  }

  /** Appending a row never changes the timestamp of a name already present. */
  lemma {:induction false} TimestampOfAppend(sheet: Sheet, e: Entry, name: string)
    requires name in NameColumn(sheet)
    ensures TimestampOf(sheet + [e], name) == TimestampOf(sheet, name)
    decreases |sheet|
  {
    assert (sheet + [e])[0] == sheet[0];
    if sheet[0].name != name {
      assert (sheet + [e])[1..] == sheet[1..] + [e];
      assert NameColumn(sheet) == [sheet[0].name] + NameColumn(sheet[1..]);
      TimestampOfAppend(sheet[1..], e, name);
    }
  }

  /** A row appended for a name not yet present is the one that gives that
      name its timestamp. */
  lemma {:induction false} TimestampOfNew(sheet: Sheet, e: Entry)
    requires e.name !in NameColumn(sheet)
    ensures TimestampOf(sheet + [e], e.name) == Some(e.timestamp)
    decreases |sheet|
  {
    if sheet != [] {
      assert (sheet + [e])[0] == sheet[0];
      assert NameColumn(sheet) == [sheet[0].name] + NameColumn(sheet[1..]);
      assert (sheet + [e])[1..] == sheet[1..] + [e];
      TimestampOfNew(sheet[1..], e);
    }
  }

  /** Marking keeps the first timestamp of a name already present and
      records the given time for a new one. */
  lemma MarkKeepsFirstTimestamp(sheet: Sheet, name: string, time: string)
    ensures TimestampOf(MarkSheet(sheet, name, time).sheet, name)
              == if name in NameColumn(sheet) then TimestampOf(sheet, name) else Some(time)
  {
    if name !in NameColumn(sheet) {
      TimestampOfNew(sheet, Entry(name, time));
    }
  }

  /** Marking one name never changes what the ledger says about another. */
  lemma {:induction false} MarkLeavesOthers(sheet: Sheet, name: string, time: string, other: string)
    requires other != name
    ensures TimestampOf(MarkSheet(sheet, name, time).sheet, other) == TimestampOf(sheet, other)
    decreases |sheet|
  {
    if name !in NameColumn(sheet) && sheet != [] {
      var e := Entry(name, time);
      assert (sheet + [e])[0] == sheet[0];
      assert (sheet + [e])[1..] == sheet[1..] + [e];
      assert NameColumn(sheet) == [sheet[0].name] + NameColumn(sheet[1..]);
      if sheet[0].name != other {
        MarkLeavesOthers(sheet[1..], name, time, other);
      }
    }
  }

  /** Marking is idempotent: a second mark of the same name on the same day
      reports "already marked" and leaves the rows of the first mark. */
  lemma MarkIdempotent(sheet: Sheet, name: string, t1: string, t2: string)
    ensures MarkSheet(MarkSheet(sheet, name, t1).sheet, name, t2)
              == MarkOutcome(MarkSheet(sheet, name, t1).sheet, AlreadyMarked)
  {
  }

  /** A ledger of distinct names stays one. */
  lemma MarkPreservesDistinct(sheet: Sheet, name: string, time: string)
    requires Distinct(NameColumn(sheet))
    ensures Distinct(NameColumn(MarkSheet(sheet, name, time).sheet))
  {
    if name !in NameColumn(sheet) {
      NameColumnAppend(sheet, Entry(name, time));
    }
  }

  /** The first mark of the day on a missing ledger yields one row. */
  lemma FirstMarkOfDay(name: string, time: string)
    ensures MarkSheet([], name, time) == MarkOutcome([Entry(name, time)], Marked)
  {
  }

  /** The attendance directory: ledger files by path. */
  class AttendanceFolder {
    var files: map<string, Sheet>

    /** The directory as found at start-up, possibly already holding
        ledgers of earlier days. */
    constructor(existing: map<string, Sheet>)
      ensures files == existing
    {
      files := existing;
    }

    /** The rows mark_attendance starts from: the stored ledger of `date`,
        or an empty Name/Timestamp table when there is no such file. */
    function LoadSheet(date: string): (sheet: Sheet)
      reads this
      ensures LedgerPath(date) !in files ==> sheet == []
      ensures LedgerPath(date) in files ==> sheet == files[LedgerPath(date)]
    {
      var path := LedgerPath(date);
      if path in files then files[path] else []
    }

    /** What the "View Attendance" step shows for `date`: the stored rows,
        or None for the "no attendance has been marked" message. */
    function View(date: string): (shown: Option<Sheet>)
      reads this
      ensures shown.Some? ==> shown.value == LoadSheet(date)
      ensures shown.None? <==> LedgerPath(date) !in files
    {
      var path := LedgerPath(date);
      if path in files then Some(files[path]) else None
    }

    /** mark_attendance(name) at `date`, `time`. The file is written only
        when a row is added. */
    method Mark(name: string, date: string, time: string) returns (status: MarkStatus)
      modifies this
      ensures status == MarkSheet(old(LoadSheet(date)), name, time).status
      ensures LoadSheet(date) == MarkSheet(old(LoadSheet(date)), name, time).sheet
      ensures status == Marked ==> files == old(files)[LedgerPath(date) := LoadSheet(date)]
      ensures status == AlreadyMarked ==> files == old(files)
      ensures forall d :: d != date ==> LoadSheet(d) == old(LoadSheet(d))
      ensures forall d :: d != date ==> View(d) == old(View(d))
    {
      var filePath := LedgerPath(date);
      var df: Sheet;
      if filePath in files {
        df := files[filePath];
      } else {
        df := [];
      }
      if name !in NameColumn(df) {
        var newEntry := Entry(name, time);
        df := df + [newEntry];
        files := files[filePath := df];
        status := Marked;
      } else {
        status := AlreadyMarked;
      }
      forall d | d != date
        ensures LedgerPath(d) != filePath
      {
        if LedgerPath(d) == filePath {
          LedgerPathInjective(d, date);
        }
      }
    }
  }
}
