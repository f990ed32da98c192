/**
 * The in-memory menu table of the family menu planner: a sequence of rows
 * (Annee, Semaine, Jour, Moment, Menu) in table order, the boolean-mask
 * selections the three tabs run on it, and the first-match cell lookup.
 */
module Menus {

  datatype Option<+T> = None | Some(value: T)

  /** The values of the `Jour` column, declared in the order of the `jours` list. */
  datatype Day = Lundi | Mardi | Mercredi | Jeudi | Vendredi | Samedi | Dimanche

  /** The values of the `Moment` column, declared in the order of the `moments` list. */
  datatype Meal = Midi | Soir

  const Days: seq<Day> := [Lundi, Mardi, Mercredi, Jeudi, Vendredi, Samedi, Dimanche]
  const Meals: seq<Meal> := [Midi, Soir]

  /** What the week view shows for a cell that has no row. */
  const NothingPlanned: string := "Rien de prévu"
  /** What the entry form pre-fills for a cell that has no row. */
  const Blank: string := ""

  /** Every day occurs in `Days`, at the index returned. */
  function DayIndex(d: Day): (k: nat)
    ensures k < |Days| && Days[k] == d
  {
    match d
    case Lundi => 0
    case Mardi => 1
    case Mercredi => 2
    case Jeudi => 3
    case Vendredi => 4
    case Samedi => 5
    case Dimanche => 6
  }

  /** Every meal occurs in `Meals`, at the index returned. */
  function MealIndex(m: Meal): (k: nat)
    ensures k < |Meals| && Meals[k] == m
  {
    match m
    case Midi => 0
    case Soir => 1
  }

  /** No day occurs twice in `Days`, so a day determines its position. */
  lemma DaysDistinct()
    ensures forall i, j :: 0 <= i < |Days| && 0 <= j < |Days| && Days[i] == Days[j] ==> i == j
  {
  }

  /** One row of the table; the fields follow the fixed column order. */
  datatype Row = Row(annee: int, semaine: int, jour: Day, moment: Meal, menu: string)

  /** The natural key of a row: everything but the menu text. */
  datatype Key = Key(annee: int, semaine: int, jour: Day, moment: Meal)

  function KeyOf(r: Row): Key {
    Key(r.annee, r.semaine, r.jour, r.moment)
  }

  /** No two rows of the table share (Annee, Semaine, Jour, Moment). */
  predicate KeysUnique(t: seq<Row>) {
    forall i, j :: 0 <= i < j < |t| ==> KeyOf(t[i]) != KeyOf(t[j])
  }

  predicate InWeek(r: Row, y: int, w: int) {
    r.annee == y && r.semaine == w
  }

  /**
   * The row masks the script builds from column comparisons: rows of one
   * week, rows of every other week, and rows of one cell of one week.
   */
  datatype Mask =
    | WeekIs(y: int, w: int)
    | WeekIsNot(y: int, w: int)
    | CellIs(y: int, w: int, d: Day, m: Meal)

  predicate Holds(q: Mask, r: Row) {
    match q
    case WeekIs(y, w) => InWeek(r, y, w)
    case WeekIsNot(y, w) => !InWeek(r, y, w)
    case CellIs(y, w, d, m) => InWeek(r, y, w) && r.jour == d && r.moment == m
  }

  /** Boolean indexing of the table: the rows on which the mask holds, in table order. */
  function Select(t: seq<Row>, q: Mask): (r: seq<Row>)
    ensures |r| <= |t|
    ensures forall x :: x in r <==> x in t && Holds(q, x)
  {
    if t == [] then [] else (if Holds(q, t[0]) then [t[0]] else []) + Select(t[1..], q)
  }

  /** Selection distributes over concatenation, so it keeps the table order. */
  lemma {:induction false} SelectConcat(a: seq<Row>, b: seq<Row>, q: Mask)
    ensures Select(a + b, q) == Select(a, q) + Select(b, q)
  {
    if a == [] {
      assert a + b == b;
    } else {
      assert (a + b)[1..] == a[1..] + b;
      SelectConcat(a[1..], b, q);
    }
  }

  /** Each row the mask holds on is kept as often as it occurs; every other row is dropped. */
  lemma {:induction false} SelectMultiset(t: seq<Row>, q: Mask, x: Row)
    ensures multiset(Select(t, q))[x] == if Holds(q, x) then multiset(t)[x] else 0
  {
    if t != [] {
      assert t == [t[0]] + t[1..];
      SelectMultiset(t[1..], q, x);
    }
  }

  /** A mask that holds on every row selects the whole table. */
  lemma {:induction false} SelectAll(t: seq<Row>, q: Mask)
    requires forall i :: 0 <= i < |t| ==> Holds(q, t[i])
    ensures Select(t, q) == t
  {
    if t != [] {
      SelectAll(t[1..], q);
    }
  }

  /** A mask that holds on no row selects nothing. */
  lemma SelectNone(t: seq<Row>, q: Mask)
    requires forall i :: 0 <= i < |t| ==> !Holds(q, t[i])
    ensures Select(t, q) == []
  {
  }

  /** Selecting with a narrower mask after a wider one is selecting with the narrower one. */
  lemma {:induction false} SelectNarrow(t: seq<Row>, wide: Mask, narrow: Mask)
    requires forall r :: Holds(narrow, r) ==> Holds(wide, r)
    ensures Select(Select(t, wide), narrow) == Select(t, narrow)
  {
    if t != [] {
      var head := if Holds(wide, t[0]) then [t[0]] else [];
      SelectConcat(head, Select(t[1..], wide), narrow);
      SelectNarrow(t[1..], wide, narrow);
      assert [t[0]][1..] == [];
    }
  }

  /** When the mask holds on exactly one position k, the selection is that one row. */
  lemma {:induction false} SelectSingleton(t: seq<Row>, q: Mask, k: nat)
    requires k < |t|
    requires forall i :: 0 <= i < |t| ==> (Holds(q, t[i]) <==> i == k)
    ensures Select(t, q) == [t[k]]
  {
    if k == 0 {
      SelectNone(t[1..], q);
    } else {
      SelectSingleton(t[1..], q, k - 1);
    }
  }

  /** The first row of a selection is the first row of the table the mask holds on. */
  lemma {:induction false} SelectFirst(t: seq<Row>, q: Mask, i: nat)
    requires i < |t| && Holds(q, t[i])
    requires forall j :: 0 <= j < i ==> !Holds(q, t[j])
    ensures Select(t, q) != [] && Select(t, q)[0] == t[i]
  {
    if i > 0 {
      SelectFirst(t[1..], q, i - 1);
    }
  }

  lemma KeysUniqueConcat(a: seq<Row>, b: seq<Row>)
    requires KeysUnique(a) && KeysUnique(b)
    requires forall x, z :: x in a && z in b ==> KeyOf(x) != KeyOf(z)
    ensures KeysUnique(a + b)
  {
  }

  /** A selection of a table with unique keys has unique keys. */
  lemma {:induction false} SelectKeysUnique(t: seq<Row>, q: Mask)
    requires KeysUnique(t)
    ensures KeysUnique(Select(t, q))
  {
    if t != [] {
      assert KeysUnique(t[1..]) by {
        forall i, j | 0 <= i < j < |t[1..]| ensures KeyOf(t[1..][i]) != KeyOf(t[1..][j]) {
          assert t[1..][i] == t[i + 1] && t[1..][j] == t[j + 1];
        }
      }
      SelectKeysUnique(t[1..], q);
      var head := if Holds(q, t[0]) then [t[0]] else [];
      forall x, z | x in head && z in Select(t[1..], q) ensures KeyOf(x) != KeyOf(z) {
        var j :| 0 <= j < |t[1..]| && t[1..][j] == z;
        assert t[j + 1] == z;
      }
      KeysUniqueConcat(head, Select(t[1..], q));
    }
  }

  /** The menu of the first row of the cell's selection, if the selection is not empty. */
  function Find(t: seq<Row>, y: int, w: int, d: Day, m: Meal): Option<string> {
    var hits := Select(t, CellIs(y, w, d, m));
    if |hits| > 0 then Some(hits[0].menu) else None
  }

  /** The first-match lookup, falling back to the caller's default when no row matches. */
  function LookupOr(t: seq<Row>, y: int, w: int, d: Day, m: Meal, default: string): string {
    match Find(t, y, w, d, m)
    case Some(v) => v
    case None => default
  }

  /** The lookup yields the menu of the first matching row, and nothing when no row matches. */
  lemma FindFirstMatch(t: seq<Row>, y: int, w: int, d: Day, m: Meal)
    ensures Find(t, y, w, d, m) == None <==> forall i :: 0 <= i < |t| ==> !Holds(CellIs(y, w, d, m), t[i])
    ensures forall i :: 0 <= i < |t| && Holds(CellIs(y, w, d, m), t[i]) &&
                        (forall j :: 0 <= j < i ==> !Holds(CellIs(y, w, d, m), t[j]))
                     ==> Find(t, y, w, d, m) == Some(t[i].menu)
  {
    var q := CellIs(y, w, d, m);
    if forall i :: 0 <= i < |t| ==> !Holds(q, t[i]) {
      SelectNone(t, q);
    } else {
      var i :| 0 <= i < |t| && Holds(q, t[i]);
      assert Select(t, q) != [] by { assert t[i] in Select(t, q); }
    }
    forall i | 0 <= i < |t| && Holds(q, t[i]) && (forall j :: 0 <= j < i ==> !Holds(q, t[j]))
      ensures Find(t, y, w, d, m) == Some(t[i].menu)
    {
      SelectFirst(t, q, i);
    }
  }

  /** The lookup with a default returns the default exactly when no row matches. */
  lemma LookupOrDefault(t: seq<Row>, y: int, w: int, d: Day, m: Meal, default: string)
    ensures (forall i :: 0 <= i < |t| ==> !Holds(CellIs(y, w, d, m), t[i])) ==> LookupOr(t, y, w, d, m, default) == default
    ensures forall i :: 0 <= i < |t| && Holds(CellIs(y, w, d, m), t[i]) &&
                        (forall j :: 0 <= j < i ==> !Holds(CellIs(y, w, d, m), t[j]))
                     ==> LookupOr(t, y, w, d, m, default) == t[i].menu
  {
    FindFirstMatch(t, y, w, d, m);
  }

  /** With unique keys, the lookup of a row's own cell returns that row's menu. */
  lemma FindUnique(t: seq<Row>, k: nat)
    requires KeysUnique(t) && k < |t|
    ensures Find(t, t[k].annee, t[k].semaine, t[k].jour, t[k].moment) == Some(t[k].menu)
  {
    var r := t[k];
    var q := CellIs(r.annee, r.semaine, r.jour, r.moment);
    forall j | 0 <= j < k ensures !Holds(q, t[j]) {
      assert KeyOf(t[j]) != KeyOf(t[k]);
    }
    FindFirstMatch(t, r.annee, r.semaine, r.jour, r.moment);
  }

  /** Looking a cell up inside the week's rows is looking it up in the whole table. */
  lemma FindWithinWeek(t: seq<Row>, y: int, w: int, d: Day, m: Meal)
    ensures Find(Select(t, WeekIs(y, w)), y, w, d, m) == Find(t, y, w, d, m)
  {
    SelectNarrow(t, WeekIs(y, w), CellIs(y, w, d, m));
  }
}
