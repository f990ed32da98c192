/**
 * The current-week tab: the rows of the caller's (year, week), shown as one
 * Midi text and one Soir text per day, or the "no menu" notice when the week
 * has no row. Today's year and week number are parameters.
 */
module CurrentWeek {
  import opened Menus
  import opened MenuForm

  /** What the tab renders: the notice, or per day (in `Days` order) the two texts. */
  datatype WeekView = NoMenuThisWeek | Plan(midi: seq<string>, soir: seq<string>)

  function ShowWeek(t: seq<Row>, y: int, w: int): (v: WeekView)
    ensures v.NoMenuThisWeek? <==> forall i :: 0 <= i < |t| ==> !InWeek(t[i], y, w)
    ensures v.Plan? ==> |v.midi| == |Days| && |v.soir| == |Days|
  {
    var week := Select(t, WeekIs(y, w));
    assert forall i :: 0 <= i < |t| ==> t[i] in t;
    if week == [] then NoMenuThisWeek
    else
      assert week[0] in t;
      Plan(seq(|Days|, k requires 0 <= k < |Days| => LookupOr(week, y, w, Days[k], Midi, NothingPlanned)),
           seq(|Days|, k requires 0 <= k < |Days| => LookupOr(week, y, w, Days[k], Soir, NothingPlanned)))
  }

  /**
   * Each text shown is the first-match lookup of its cell over the whole
   * table, with "Rien de prévu" for a cell that has no row.
   */
  lemma ShowWeekCells(t: seq<Row>, y: int, w: int, k: nat)
    requires ShowWeek(t, y, w).Plan? && k < |Days|
    ensures ShowWeek(t, y, w).midi[k] == LookupOr(t, y, w, Days[k], Midi, NothingPlanned)
    ensures ShowWeek(t, y, w).soir[k] == LookupOr(t, y, w, Days[k], Soir, NothingPlanned)
  {
    FindWithinWeek(t, y, w, Days[k], Midi);
    FindWithinWeek(t, y, w, Days[k], Soir);
  }

  /** After a week grid is saved, the tab shows that week's 14 texts, day by day. */
  lemma ShowWeekAfterSave(t: seq<Row>, y: int, w: int, g: seq<Row>, k: nat)
    requires IsWeekGrid(g, y, w) && k < |Days|
    ensures ShowWeek(ReplaceWeek(t, y, w, g), y, w).Plan?
    ensures ShowWeek(ReplaceWeek(t, y, w, g), y, w).midi[k] == g[2 * k].menu
    ensures ShowWeek(ReplaceWeek(t, y, w, g), y, w).soir[k] == g[2 * k + 1].menu
  {
    var r := ReplaceWeek(t, y, w, g);
    assert InWeek(r[|r| - 1], y, w);
    ShowWeekCells(r, y, w, k);
    ReplaceWeekFindInWeek(t, y, w, g, Days[k], Midi);
    ReplaceWeekFindInWeek(t, y, w, g, Days[k], Soir);
    DaysDistinct();
    assert DayIndex(Days[k]) == k;
  }
}
