/** The settings upsert of the admin handlers (utils/handler_util.py): the
    first settings row of a weekday gets the new period, or a row for that
    weekday is added. */
module HandlerUtil {
  import opened Models
  import DrawDaemon

  /** The position of the first settings row of weekday `dayOfWeek`, in
      storage order (the first result of the filtered query). */
  function FirstWithDay(rows: seq<Settings>, dayOfWeek: int): (r: Option<nat>)
    ensures r.Some? ==> r.value < |rows| && rows[r.value].dayOfWeek == dayOfWeek
    ensures r.Some? ==> forall k :: 0 <= k < r.value ==> rows[k].dayOfWeek != dayOfWeek
    ensures r.None? <==> forall k :: 0 <= k < |rows| ==> rows[k].dayOfWeek != dayOfWeek
  {
    if rows == [] then None
    else if rows[0].dayOfWeek == dayOfWeek then Some(0)
    else
      match FirstWithDay(rows[1..], dayOfWeek)
      case None => None
      case Some(i) => Some(i + 1)
  }

  /** The period the weekday's first row holds, if the weekday has a row. */
  function WeeksFor(rows: seq<Settings>, dayOfWeek: int): Option<int> {
    match FirstWithDay(rows, dayOfWeek)
    case None => None
    case Some(i) => Some(rows[i].frequencyInWeeks)
  }

  /** The settings table after the upsert. */
  function Upserted(rows: seq<Settings>, weeks: int, dayOfWeek: int): seq<Settings> {
    match FirstWithDay(rows, dayOfWeek)
    case Some(i) => rows[i := rows[i].(frequencyInWeeks := weeks)]
    case None => rows + [Settings(NextRowId(SettingsIds(rows)), dayOfWeek, weeks)]
  }

  /** `update_frequency_in_weeks`; the weekday defaults to 0 (Monday). */
  method UpdateFrequencyInWeeks(s: Session, weeks: int, dayOfWeek: int := 0)
    requires s.Valid()
    modifies s
    ensures s.Valid()
    ensures s.settings == Upserted(old(s.settings), weeks, dayOfWeek)
    ensures s.participants == old(s.participants) && s.draws == old(s.draws)
    ensures s.pairs == old(s.pairs) && s.feedbacks == old(s.feedbacks)
  {
    var found := FirstWithDay(s.settings, dayOfWeek);
    UpsertKeepsIdsDistinct(s.settings, weeks, dayOfWeek);
    match found {
      case Some(i) =>
        var setting := s.settings[i];
        s.settings := s.settings[i := setting.(frequencyInWeeks := weeks)];
      case None =>
        var newSetting := Settings(NextRowId(SettingsIds(s.settings)), dayOfWeek, weeks);
        s.settings := s.settings + [newSetting];
    }
  }

  // ---------------------------------------------------------------------
  // Properties of the upsert

  /** When the weekday has a row, its first row takes the new period, keeps
      its id and weekday, and the table keeps its length and other rows. */
  lemma UpsertExisting(rows: seq<Settings>, weeks: int, dayOfWeek: int, i: nat)
    requires i < |rows| && rows[i].dayOfWeek == dayOfWeek
    requires forall k :: 0 <= k < i ==> rows[k].dayOfWeek != dayOfWeek
    ensures var r := Upserted(rows, weeks, dayOfWeek);
      && |r| == |rows|
      && r[i] == Settings(rows[i].id, dayOfWeek, weeks)
      && forall k :: 0 <= k < |rows| && k != i ==> r[k] == rows[k]
  {
    FirstWithDayUnique(rows, dayOfWeek, i);
  }

  /** When the weekday has no row, exactly one row is appended: the
      weekday with the new period, under an id no existing row has. */
  lemma UpsertMissing(rows: seq<Settings>, weeks: int, dayOfWeek: int)
    requires forall k :: 0 <= k < |rows| ==> rows[k].dayOfWeek != dayOfWeek
    ensures var r := Upserted(rows, weeks, dayOfWeek);
      && |r| == |rows| + 1
      && r[..|rows|] == rows
      && r[|rows|].dayOfWeek == dayOfWeek && r[|rows|].frequencyInWeeks == weeks
      && forall k :: 0 <= k < |rows| ==> rows[k].id != r[|rows|].id
  {
    var ids := SettingsIds(rows);
    assert forall k :: 0 <= k < |rows| ==> ids[k] == rows[k].id;
  }

  /** The table grows by at most one row, and every row other than the
      weekday's first one, old or new, is kept where it was. */
  lemma UpsertFrame(rows: seq<Settings>, weeks: int, dayOfWeek: int)
    ensures var r := Upserted(rows, weeks, dayOfWeek);
      && |rows| <= |r| <= |rows| + 1
      && forall k :: 0 <= k < |rows| && rows[k].dayOfWeek != dayOfWeek ==> r[k] == rows[k]
  {
  }

  /** Reading after writing: the weekday now has the new period, and every
      other weekday keeps the period it had. */
  lemma {:induction false} UpsertReadBack(rows: seq<Settings>, weeks: int, dayOfWeek: int, other: int)
    requires other != dayOfWeek
    ensures WeeksFor(Upserted(rows, weeks, dayOfWeek), dayOfWeek) == Some(weeks)
    ensures WeeksFor(Upserted(rows, weeks, dayOfWeek), other) == WeeksFor(rows, other)
  {
    var r := Upserted(rows, weeks, dayOfWeek);
    match FirstWithDay(rows, dayOfWeek) {
      case Some(i) =>
        UpsertExisting(rows, weeks, dayOfWeek, i);
        FirstWithDayUnique(r, dayOfWeek, i);
        UnchangedDayRows(rows, r, other);
      case None =>
        UpsertMissing(rows, weeks, dayOfWeek);
        FirstWithDayUnique(r, dayOfWeek, |rows|);
        assert FirstWithDay(r, other) == FirstWithDay(rows, other) by {
          match FirstWithDay(rows, other) {
            case Some(j) => FirstWithDayUnique(r, other, j);
            case None => assert forall k :: 0 <= k < |r| ==> r[k].dayOfWeek != other by {
              forall k | 0 <= k < |r| ensures r[k].dayOfWeek != other {
                if k < |rows| { assert r[k] == rows[k]; }
              }
            }
          }
        }
    }
  }

  /** Upserting the same period twice is the same as upserting it once. */
  lemma UpsertIdempotent(rows: seq<Settings>, weeks: int, dayOfWeek: int)
    ensures Upserted(Upserted(rows, weeks, dayOfWeek), weeks, dayOfWeek) == Upserted(rows, weeks, dayOfWeek)
  {
    UpsertLastWins(rows, weeks, weeks, dayOfWeek);
  }

  /** Of two upserts of the same weekday, the later period wins and no second
      row is added. */
  lemma {:induction false} UpsertLastWins(rows: seq<Settings>, first: int, second: int, dayOfWeek: int)
    ensures Upserted(Upserted(rows, first, dayOfWeek), second, dayOfWeek) == Upserted(rows, second, dayOfWeek)
  {
    var r := Upserted(rows, first, dayOfWeek);
    match FirstWithDay(rows, dayOfWeek) {
      case Some(i) =>
        UpsertExisting(rows, first, dayOfWeek, i);
        FirstWithDayUnique(r, dayOfWeek, i);
        UpsertExisting(r, second, dayOfWeek, i);
        UpsertExisting(rows, second, dayOfWeek, i);
        assert Upserted(r, second, dayOfWeek) == Upserted(rows, second, dayOfWeek);
      case None =>
        UpsertMissing(rows, first, dayOfWeek);
        UpsertMissing(rows, second, dayOfWeek);
        FirstWithDayUnique(r, dayOfWeek, |rows|);
        UpsertExisting(r, second, dayOfWeek, |rows|);
        var q := Upserted(rows, second, dayOfWeek);
        assert Upserted(r, second, dayOfWeek) == q by {
          assert Upserted(r, second, dayOfWeek)[..|rows|] == rows;
          assert q[..|rows|] == rows;
        }
    }
  }

  /** The upsert keeps the ids of the settings table distinct. */
  lemma UpsertKeepsIdsDistinct(rows: seq<Settings>, weeks: int, dayOfWeek: int)
    requires Distinct(SettingsIds(rows))
    ensures Distinct(SettingsIds(Upserted(rows, weeks, dayOfWeek)))
  {
    var r := Upserted(rows, weeks, dayOfWeek);
    var ids, newIds := SettingsIds(rows), SettingsIds(r);
    match FirstWithDay(rows, dayOfWeek) {
      case Some(i) =>
        assert forall k :: 0 <= k < |r| ==> newIds[k] == ids[k];
      case None =>
        UpsertMissing(rows, weeks, dayOfWeek);
        assert forall k :: 0 <= k < |rows| ==> newIds[k] == ids[k];
    }
  }

  /** The daemon reads the first settings row. An upsert of a weekday that
      row does not hold leaves it as it was; an upsert of an empty table
      creates it. */
  lemma UpsertAndSchedule(rows: seq<Settings>, weeks: int, dayOfWeek: int)
    ensures rows != [] && rows[0].dayOfWeek != dayOfWeek ==>
      DrawDaemon.FirstSettings(Upserted(rows, weeks, dayOfWeek)) == DrawDaemon.FirstSettings(rows)
    ensures rows != [] && rows[0].dayOfWeek == dayOfWeek ==>
      DrawDaemon.FirstSettings(Upserted(rows, weeks, dayOfWeek)) == Some(rows[0].(frequencyInWeeks := weeks))
    ensures rows == [] ==> DrawDaemon.FirstSettings(Upserted(rows, weeks, dayOfWeek)) == Some(Settings(1, dayOfWeek, weeks))
  {
  }

  // ---------------------------------------------------------------------
  // Helpers

  /** A position that satisfies the first-row characterization is the one found. */
  lemma FirstWithDayUnique(rows: seq<Settings>, dayOfWeek: int, i: nat)
    requires i < |rows| && rows[i].dayOfWeek == dayOfWeek
    requires forall k :: 0 <= k < i ==> rows[k].dayOfWeek != dayOfWeek
    ensures FirstWithDay(rows, dayOfWeek) == Some(i)
  {
    var f := FirstWithDay(rows, dayOfWeek);
    assert f.Some? && rows[i].dayOfWeek == dayOfWeek;
  }

  /** Two tables whose rows of a weekday, and the rows before them, agree
      find the same first row for it. */
  lemma UnchangedDayRows(rows: seq<Settings>, r: seq<Settings>, day: int)
    requires |r| == |rows|
    requires forall k :: 0 <= k < |rows| && (rows[k].dayOfWeek == day || r[k].dayOfWeek == day) ==> r[k] == rows[k]
    ensures WeeksFor(r, day) == WeeksFor(rows, day)
    ensures FirstWithDay(r, day) == FirstWithDay(rows, day)
  {
    match FirstWithDay(rows, day) {
      case Some(j) =>
        FirstWithDayUnique(r, day, j);
      case None =>
        assert forall k :: 0 <= k < |r| ==> r[k].dayOfWeek != day;
    }
  }
}
