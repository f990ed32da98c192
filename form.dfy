/**
 * The entry tab: the 14-cell grid the form submits for a chosen (year, week),
 * and the replace-week upsert that stores it.
 */
module MenuForm {
  import opened Menus

  /**
   * The texts the user typed into the form's cells. A cell that is not a key
   * keeps the value its text input was pre-filled with.
   */
  type Edits = map<(Day, Meal), string>

  /** What the text input of one cell returns: the typed text, else the pre-filled menu. */
  function FormValue(t: seq<Row>, y: int, w: int, edits: Edits, d: Day, m: Meal): string {
    if (d, m) in edits then edits[(d, m)] else LookupOr(t, y, w, d, m, Blank)
  }

  /** The rows all belong to week (y, w). */
  predicate WithinWeek(g: seq<Row>, y: int, w: int) {
    forall i :: 0 <= i < |g| ==> InWeek(g[i], y, w)
  }

  /**
   * The shape of a submitted grid: 14 rows of week (y, w), day-major, Midi
   * before Soir: Lundi-Midi, Lundi-Soir, ..., Dimanche-Soir.
   */
  predicate IsWeekGrid(g: seq<Row>, y: int, w: int) {
    && |g| == |Days| * |Meals|
    && forall i :: 0 <= i < |g| ==>
         g[i].annee == y && g[i].semaine == w && g[i].jour == Days[i / 2] && g[i].moment == Meals[i % 2]
  }

  /** A week grid whose texts are what the form's inputs return over table t. */
  predicate IsFormGrid(g: seq<Row>, t: seq<Row>, y: int, w: int, edits: Edits) {
    && IsWeekGrid(g, y, w)
    && forall i :: 0 <= i < |g| ==> g[i].menu == FormValue(t, y, w, edits, g[i].jour, g[i].moment)
  }

  /** Rows 2j and 2j+1 of g are day j's Midi and Soir rows as the form returns them. */
  predicate DayRowsAt(g: seq<Row>, t: seq<Row>, y: int, w: int, edits: Edits, j: nat)
    requires j < |Days| && 2 * j + 1 < |g|
  {
    && g[2 * j] == Row(y, w, Days[j], Midi, FormValue(t, y, w, edits, Days[j], Midi))
    && g[2 * j + 1] == Row(y, w, Days[j], Soir, FormValue(t, y, w, edits, Days[j], Soir))
  }

  lemma DayRowsMakeFormGrid(g: seq<Row>, t: seq<Row>, y: int, w: int, edits: Edits)
    requires |g| == 2 * |Days|
    requires forall j :: 0 <= j < |Days| ==> DayRowsAt(g, t, y, w, edits, j)
    ensures IsFormGrid(g, t, y, w, edits)
  {
    forall i | 0 <= i < |g|
      ensures g[i].annee == y && g[i].semaine == w && g[i].jour == Days[i / 2] && g[i].moment == Meals[i % 2]
      ensures g[i].menu == FormValue(t, y, w, edits, g[i].jour, g[i].moment)
    {
      var j := i / 2;
      assert DayRowsAt(g, t, y, w, edits, j);
      if i % 2 == 0 {
        assert i == 2 * j;
      } else {
        assert i == 2 * j + 1;
      }
    }
  }

  /** Appending day k's two rows to the rows of days 0..k-1 gives the rows of days 0..k. */
  lemma AppendDayRows(g: seq<Row>, t: seq<Row>, y: int, w: int, edits: Edits, k: nat)
    requires k < |Days| && |g| == 2 * k
    requires forall j :: 0 <= j < k ==> DayRowsAt(g, t, y, w, edits, j)
    ensures var g' := g + [Row(y, w, Days[k], Midi, FormValue(t, y, w, edits, Days[k], Midi))]
                         + [Row(y, w, Days[k], Soir, FormValue(t, y, w, edits, Days[k], Soir))];
            forall j :: 0 <= j <= k ==> DayRowsAt(g', t, y, w, edits, j)
  {
    var g' := g + [Row(y, w, Days[k], Midi, FormValue(t, y, w, edits, Days[k], Midi))]
                + [Row(y, w, Days[k], Soir, FormValue(t, y, w, edits, Days[k], Soir))];
    forall j | 0 <= j <= k ensures DayRowsAt(g', t, y, w, edits, j) {
      if j < k {
        assert DayRowsAt(g, t, y, w, edits, j);
        assert g'[2 * j] == g[2 * j] && g'[2 * j + 1] == g[2 * j + 1];
      }
    }
  }

  /**
   * Builds the list of new rows the form submits, appending two rows per day
   * of `Days`. The week is bounded by its number input.
   */
  method BuildGrid(t: seq<Row>, annee: int, semaine: int, edits: Edits) returns (grid: seq<Row>)
    requires 1 <= semaine <= 53
    ensures IsFormGrid(grid, t, annee, semaine, edits)
  {
    grid := [];
    for k := 0 to |Days|
      invariant |grid| == 2 * k
      invariant forall j :: 0 <= j < k ==> DayRowsAt(grid, t, annee, semaine, edits, j)
    {
      var jour := Days[k];
      var valM := FormValue(t, annee, semaine, edits, jour, Midi);
      var valS := FormValue(t, annee, semaine, edits, jour, Soir);
      AppendDayRows(grid, t, annee, semaine, edits, k);
      grid := grid + [Row(annee, semaine, jour, Midi, valM)];
      grid := grid + [Row(annee, semaine, jour, Soir, valS)];
    }
    DayRowsMakeFormGrid(grid, t, annee, semaine, edits);
  }

  /** Position of cell (d, m) in a week grid. */
  function Slot(d: Day, m: Meal): (k: nat)
    ensures k < |Days| * |Meals| && Days[k / 2] == d && Meals[k % 2] == m
  {
    2 * DayIndex(d) + MealIndex(m)
  }

  /** Each cell of the week occurs exactly once in a week grid, at its slot. */
  lemma GridCell(g: seq<Row>, y: int, w: int, d: Day, m: Meal)
    requires IsWeekGrid(g, y, w)
    ensures Select(g, CellIs(y, w, d, m)) == [g[Slot(d, m)]]
  {
    var k := Slot(d, m);
    DaysDistinct();
    forall i | 0 <= i < |g| ensures Holds(CellIs(y, w, d, m), g[i]) <==> i == k {
      if Holds(CellIs(y, w, d, m), g[i]) {
        assert i / 2 == k / 2;
        assert i % 2 == k % 2;
      }
    }
    SelectSingleton(g, CellIs(y, w, d, m), k);
  }

  /** The 14 cells of a week grid carry distinct keys. */
  lemma GridKeysUnique(g: seq<Row>, y: int, w: int)
    requires IsWeekGrid(g, y, w)
    ensures KeysUnique(g)
  {
  }

  /** The submit handler: drop every row of week (y, w), then append the grid. */
  function ReplaceWeek(t: seq<Row>, y: int, w: int, g: seq<Row>): seq<Row> {
    Select(t, WeekIsNot(y, w)) + g
  }

  /** Week isolation: the rows of the other weeks are exactly the old ones, in the same order. */
  lemma ReplaceWeekKeepsOtherWeeks(t: seq<Row>, y: int, w: int, g: seq<Row>)
    requires WithinWeek(g, y, w)
    ensures Select(ReplaceWeek(t, y, w, g), WeekIsNot(y, w)) == Select(t, WeekIsNot(y, w))
  {
    SelectConcat(Select(t, WeekIsNot(y, w)), g, WeekIsNot(y, w));
    SelectNarrow(t, WeekIsNot(y, w), WeekIsNot(y, w));
    SelectNone(g, WeekIsNot(y, w));
  }

  /** The rows of week (y, w) afterwards are exactly the grid, whatever the week held before. */
  lemma ReplaceWeekInstallsGrid(t: seq<Row>, y: int, w: int, g: seq<Row>)
    requires WithinWeek(g, y, w)
    ensures Select(ReplaceWeek(t, y, w, g), WeekIs(y, w)) == g
  {
    var kept := Select(t, WeekIsNot(y, w));
    SelectConcat(kept, g, WeekIs(y, w));
    SelectNone(kept, WeekIs(y, w));
    SelectAll(g, WeekIs(y, w));
  }

  /** The new rows come after every retained row, and the table grows by the grid less the week's old rows. */
  lemma ReplaceWeekAppends(t: seq<Row>, y: int, w: int, g: seq<Row>)
    requires WithinWeek(g, y, w)
    ensures forall i, j :: 0 <= i < j < |ReplaceWeek(t, y, w, g)| && InWeek(ReplaceWeek(t, y, w, g)[i], y, w)
              ==> InWeek(ReplaceWeek(t, y, w, g)[j], y, w)
    ensures |ReplaceWeek(t, y, w, g)| == |t| - |Select(t, WeekIs(y, w))| + |g|
  {
    var kept := Select(t, WeekIsNot(y, w));
    var r := ReplaceWeek(t, y, w, g);
    assert forall k :: 0 <= k < |kept| ==> !InWeek(r[k], y, w) by {
      forall k | 0 <= k < |kept| ensures !InWeek(r[k], y, w) {
        assert r[k] == kept[k] && kept[k] in kept;
      }
    }
    forall i, j | 0 <= i < j < |r| && InWeek(r[i], y, w) ensures InWeek(r[j], y, w) {
      assert r[j] == g[j - |kept|];
    }
    SelectSplitsTable(t, y, w);
  }

  /** Every row is in exactly one of the two week selections. */
  lemma {:induction false} SelectSplitsTable(t: seq<Row>, y: int, w: int)
    ensures |Select(t, WeekIs(y, w))| + |Select(t, WeekIsNot(y, w))| == |t|
  {
    if t != [] {
      SelectSplitsTable(t[1..], y, w);
    }
  }

  /** Key uniqueness survives a replacement by a week grid. */
  lemma ReplaceWeekKeysUnique(t: seq<Row>, y: int, w: int, g: seq<Row>)
    requires KeysUnique(t)
    requires IsWeekGrid(g, y, w)
    ensures KeysUnique(ReplaceWeek(t, y, w, g))
  {
    var kept := Select(t, WeekIsNot(y, w));
    SelectKeysUnique(t, WeekIsNot(y, w));
    GridKeysUnique(g, y, w);
    forall x, z | x in kept && z in g ensures KeyOf(x) != KeyOf(z) {
    }
    KeysUniqueConcat(kept, g);
  }

  /** Saving the same grid for the same week twice is saving it once. */
  lemma ReplaceWeekIdempotent(t: seq<Row>, y: int, w: int, g: seq<Row>)
    requires WithinWeek(g, y, w)
    ensures ReplaceWeek(ReplaceWeek(t, y, w, g), y, w, g) == ReplaceWeek(t, y, w, g)
  {
    ReplaceWeekKeepsOtherWeeks(t, y, w, g);
  }

  /** After the replacement, each cell of week (y, w) reads back the grid's text for it. */
  lemma ReplaceWeekFindInWeek(t: seq<Row>, y: int, w: int, g: seq<Row>, d: Day, m: Meal)
    requires IsWeekGrid(g, y, w)
    ensures Find(ReplaceWeek(t, y, w, g), y, w, d, m) == Some(g[Slot(d, m)].menu)
  {
    var kept := Select(t, WeekIsNot(y, w));
    SelectConcat(kept, g, CellIs(y, w, d, m));
    SelectNone(kept, CellIs(y, w, d, m));
    GridCell(g, y, w, d, m);
  }

  /** ... and every cell of every other week reads back what it read before. */
  lemma ReplaceWeekFindElsewhere(t: seq<Row>, y: int, w: int, g: seq<Row>, y': int, w': int, d: Day, m: Meal)
    requires WithinWeek(g, y, w)
    requires (y', w') != (y, w)
    ensures Find(ReplaceWeek(t, y, w, g), y', w', d, m) == Find(t, y', w', d, m)
  {
    var kept := Select(t, WeekIsNot(y, w));
    SelectConcat(kept, g, CellIs(y', w', d, m));
    SelectNone(g, CellIs(y', w', d, m));
    SelectNarrow(t, WeekIsNot(y, w), CellIs(y', w', d, m));
  }

  /** Submitting the form stores what its inputs returned: the form then shows those texts. */
  lemma SubmitStoresFormValues(t: seq<Row>, y: int, w: int, edits: Edits, g: seq<Row>, d: Day, m: Meal)
    requires IsFormGrid(g, t, y, w, edits)
    ensures LookupOr(ReplaceWeek(t, y, w, g), y, w, d, m, Blank) == FormValue(t, y, w, edits, d, m)
    ensures (d, m) in edits ==> LookupOr(ReplaceWeek(t, y, w, g), y, w, d, m, NothingPlanned) == edits[(d, m)]
  {
    ReplaceWeekFindInWeek(t, y, w, g, d, m);
  }

  /** Submitting the form untouched changes nothing the form shows for that week. */
  lemma UntouchedSubmitKeepsForm(t: seq<Row>, y: int, w: int, g: seq<Row>, d: Day, m: Meal)
    requires IsFormGrid(g, t, y, w, map[])
    ensures LookupOr(ReplaceWeek(t, y, w, g), y, w, d, m, Blank) == LookupOr(t, y, w, d, m, Blank)
  {
    SubmitStoresFormValues(t, y, w, map[], g, d, m);
  }

  /** One submission of the form: the selected week and the rows it sent. */
  datatype Save = Save(annee: int, semaine: int, grid: seq<Row>)

  /** The table after a series of submissions, each replacing its week in turn. */
  function Replay(t: seq<Row>, saves: seq<Save>): seq<Row>
    decreases |saves|
  {
    if saves == [] then t
    else Replay(ReplaceWeek(t, saves[0].annee, saves[0].semaine, saves[0].grid), saves[1..])
  }

  /** After any series of submitted week grids, no two rows share a key. */
  lemma {:induction false} ReplayKeysUnique(t: seq<Row>, saves: seq<Save>)
    requires KeysUnique(t)
    requires forall i :: 0 <= i < |saves| ==> IsWeekGrid(saves[i].grid, saves[i].annee, saves[i].semaine)
    ensures KeysUnique(Replay(t, saves))
    decreases |saves|
  {
    if saves != [] {
      var s := saves[0];
      ReplaceWeekKeysUnique(t, s.annee, s.semaine, s.grid);
      ReplayKeysUnique(ReplaceWeek(t, s.annee, s.semaine, s.grid), saves[1..]);
    }
  }

  /** Replacing one week leaves the rows of every other week exactly as they were, in order. */
  lemma ReplaceWeekKeepsWeek(t: seq<Row>, y: int, w: int, g: seq<Row>, y': int, w': int)
    requires WithinWeek(g, y, w)
    requires (y', w') != (y, w)
    ensures Select(ReplaceWeek(t, y, w, g), WeekIs(y', w')) == Select(t, WeekIs(y', w'))
  {
    SelectConcat(Select(t, WeekIsNot(y, w)), g, WeekIs(y', w'));
    SelectNone(g, WeekIs(y', w'));
    SelectNarrow(t, WeekIsNot(y, w), WeekIs(y', w'));
  }

  /** Submissions for other weeks than (y, w), one after another, leave the rows of (y, w) as they were. */
  predicate SavesElsewhere(saves: seq<Save>, y: int, w: int) {
    forall i :: 0 <= i < |saves| ==>
      (saves[i].annee, saves[i].semaine) != (y, w) && WithinWeek(saves[i].grid, saves[i].annee, saves[i].semaine)
  }

  /** Replaying a series in two parts is replaying the first part, then the second. */
  lemma {:induction false} ReplayAppend(t: seq<Row>, a: seq<Save>, b: seq<Save>)
    ensures Replay(t, a + b) == Replay(Replay(t, a), b)
    decreases |a|
  {
    if a == [] {
      assert a + b == b;
    } else {
      assert (a + b)[1..] == a[1..] + b;
      ReplayAppend(ReplaceWeek(t, a[0].annee, a[0].semaine, a[0].grid), a[1..], b);
    }
  }

  /** A series of submissions for other weeks leaves the rows of week (y, w) unchanged. */
  lemma {:induction false} ReplayKeepsWeek(t: seq<Row>, saves: seq<Save>, y: int, w: int)
    requires SavesElsewhere(saves, y, w)
    ensures Select(Replay(t, saves), WeekIs(y, w)) == Select(t, WeekIs(y, w))
    decreases |saves|
  {
    if saves != [] {
      var s := saves[0];
      ReplaceWeekKeepsWeek(t, s.annee, s.semaine, s.grid, y, w);
      ReplayKeepsWeek(ReplaceWeek(t, s.annee, s.semaine, s.grid), saves[1..], y, w);
    }
  }

  /**
   * Last writer wins: after any series of submissions, a week holds exactly
   * the grid of the last submission for it, whatever came before it and
   * whatever other weeks were submitted after it.
   */
  lemma ReplayLastSaveWins(t: seq<Row>, saves: seq<Save>, last: Save, later: seq<Save>)
    requires WithinWeek(last.grid, last.annee, last.semaine)
    requires SavesElsewhere(later, last.annee, last.semaine)
    ensures Select(Replay(t, saves + [last] + later), WeekIs(last.annee, last.semaine)) == last.grid
  {
    var mid := Replay(t, saves);
    ReplayAppend(t, saves + [last], later);
    ReplayAppend(t, saves, [last]);
    assert Replay(mid, [last]) == ReplaceWeek(mid, last.annee, last.semaine, last.grid) by {
      assert [last][1..] == [];
    }
    ReplaceWeekInstallsGrid(mid, last.annee, last.semaine, last.grid);
    ReplayKeepsWeek(Replay(t, saves + [last]), later, last.annee, last.semaine);
  }

  /**
   * The first save into a new file: the table is the grid itself, so it holds
   * the 14 rows of that week and no row of any other week.
   */
  lemma FirstSave(y: int, w: int, edits: Edits, g: seq<Row>)
    requires IsFormGrid(g, [], y, w, edits)
    ensures ReplaceWeek([], y, w, g) == g
    ensures |ReplaceWeek([], y, w, g)| == 14
    ensures forall y', w', d, m :: (y', w') != (y, w) ==> Find(ReplaceWeek([], y, w, g), y', w', d, m) == None
    ensures forall d, m :: (d, m) !in edits ==> LookupOr(ReplaceWeek([], y, w, g), y, w, d, m, NothingPlanned) == Blank
  {
    assert Select([], WeekIsNot(y, w)) == [];
    assert [] + g == g;
    forall y', w', d, m | (y', w') != (y, w) ensures Find(ReplaceWeek([], y, w, g), y', w', d, m) == None {
      SelectNone(g, CellIs(y', w', d, m));
    }
    forall d, m | (d, m) !in edits
      ensures LookupOr(ReplaceWeek([], y, w, g), y, w, d, m, NothingPlanned) == Blank
    {
      ReplaceWeekFindInWeek([], y, w, g, d, m);
      assert Select([], CellIs(y, w, d, m)) == [];
    }
  }
}
