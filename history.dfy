/**
 * The archive tab: the distinct (Annee, Semaine) pairs of the table, latest
 * week first, and for a chosen pair the week laid out as one row per day.
 */
module History {
  import opened Menus

  /** One (Annee, Semaine) pair. */
  datatype WeekKey = WeekKey(annee: int, semaine: int)

  function WeekOf(r: Row): WeekKey {
    WeekKey(r.annee, r.semaine)
  }

  /** The two key columns of the table, row by row. */
  function WeekColumns(t: seq<Row>): (r: seq<WeekKey>)
    ensures |r| == |t| && forall i :: 0 <= i < |t| ==> r[i] == WeekOf(t[i])
  {
    if t == [] then [] else [WeekOf(t[0])] + WeekColumns(t[1..])
  }

  predicate NoDuplicates(s: seq<WeekKey>) {
    forall i, j :: 0 <= i < j < |s| ==> s[i] != s[j]
  }

  /** Drops every pair that already occurred earlier, keeping first occurrences. */
  function DropDuplicates(s: seq<WeekKey>): (r: seq<WeekKey>)
    ensures NoDuplicates(r)
    ensures forall k :: k in r <==> k in s
    decreases |s|
  {
    if s == [] then []
    else
      var init, last := s[..|s| - 1], s[|s| - 1];
      assert s == init + [last];
      var kept := DropDuplicates(init);
      if last in init then kept else kept + [last]
  }

  /** Pair a is a later week than pair b: a later year, or the same year and a later week. */
  predicate Later(a: WeekKey, b: WeekKey) {
    a.annee > b.annee || (a.annee == b.annee && a.semaine > b.semaine)
  }

  /** Sorted descending by (Annee, Semaine), ties allowed. */
  predicate Descending(s: seq<WeekKey>) {
    forall i, j :: 0 <= i < j < |s| ==> !Later(s[j], s[i])
  }

  /** Sorted strictly descending by (Annee, Semaine). */
  predicate StrictlyDescending(s: seq<WeekKey>) {
    forall i, j :: 0 <= i < j < |s| ==> Later(s[i], s[j])
  }

  /** Inserts k into a list before the first pair that is not later than k. */
  function Insert(k: WeekKey, s: seq<WeekKey>): seq<WeekKey> {
    if s == [] then [k]
    else if Later(s[0], k) then [s[0]] + Insert(k, s[1..])
    else [k] + s
  }

  /** Sorts descending by (Annee, Semaine), by insertion. */
  function SortDescending(s: seq<WeekKey>): seq<WeekKey> {
    if s == [] then [] else Insert(s[0], SortDescending(s[1..]))
  }

  lemma DescendingCons(a: WeekKey, s: seq<WeekKey>)
    requires Descending(s)
    requires forall x :: x in s ==> !Later(x, a)
    ensures Descending([a] + s)
  {
  }

  lemma NoDuplicatesCons(a: WeekKey, s: seq<WeekKey>)
    requires NoDuplicates(s) && a !in s
    ensures NoDuplicates([a] + s)
  {
  }

  lemma DescendingTail(s: seq<WeekKey>)
    requires Descending(s) && s != []
    ensures Descending(s[1..])
    ensures forall x :: x in s[1..] ==> !Later(x, s[0])
  {
  }

  /** Insertion adds exactly k. */
  lemma {:induction false} InsertMultiset(k: WeekKey, s: seq<WeekKey>)
    ensures multiset(Insert(k, s)) == multiset(s) + multiset{k}
  {
    if s != [] {
      assert s == [s[0]] + s[1..];
      InsertMultiset(k, s[1..]);
    }
  }

  /** Insertion into a descending list keeps it descending. */
  lemma {:induction false} InsertDescending(k: WeekKey, s: seq<WeekKey>)
    requires Descending(s)
    ensures Descending(Insert(k, s))
  {
    if s != [] {
      assert s == [s[0]] + s[1..];
      DescendingTail(s);
      if Later(s[0], k) {
        var rest := Insert(k, s[1..]);
        InsertDescending(k, s[1..]);
        InsertMultiset(k, s[1..]);
        forall x | x in rest ensures !Later(x, s[0]) {
          assert x in multiset(rest);
        }
        DescendingCons(s[0], rest);
      } else {
        forall x | x in s ensures !Later(x, k) {
          if x != s[0] {
            assert x in s[1..];
          }
        }
        DescendingCons(k, s);
      }
    }
  }

  /** Inserting a new pair into a duplicate-free list leaves it duplicate-free. */
  lemma {:induction false} InsertNoDuplicates(k: WeekKey, s: seq<WeekKey>)
    requires NoDuplicates(s) && k !in s
    ensures NoDuplicates(Insert(k, s))
  {
    if s != [] {
      assert s == [s[0]] + s[1..];
      if Later(s[0], k) {
        var rest := Insert(k, s[1..]);
        NoDuplicatesTail(s);
        InsertNoDuplicates(k, s[1..]);
        InsertMultiset(k, s[1..]);
        assert multiset(s[1..])[s[0]] == 0;
        assert multiset(rest)[s[0]] == 0;
        NoDuplicatesCons(s[0], rest);
      } else {
        NoDuplicatesCons(k, s);
      }
    }
  }

  lemma NoDuplicatesTail(s: seq<WeekKey>)
    requires NoDuplicates(s) && s != []
    ensures NoDuplicates(s[1..]) && s[0] !in s[1..]
  {
  }

  /** Sorting yields a descending permutation, duplicate-free when its input is. */
  lemma {:induction false} SortDescendingSpec(s: seq<WeekKey>)
    ensures Descending(SortDescending(s))
    ensures multiset(SortDescending(s)) == multiset(s)
    ensures NoDuplicates(s) ==> NoDuplicates(SortDescending(s))
  {
    if s != [] {
      assert s == [s[0]] + s[1..];
      var rest := SortDescending(s[1..]);
      SortDescendingSpec(s[1..]);
      InsertDescending(s[0], rest);
      InsertMultiset(s[0], rest);
      if NoDuplicates(s) {
        NoDuplicatesTail(s);
        assert multiset(s[1..])[s[0]] == 0;
        assert multiset(rest)[s[0]] == 0;
        InsertNoDuplicates(s[0], rest);
      }
    }
  }

  /** The archive list: distinct pairs of the table, sorted descending. */
  function Archives(t: seq<Row>): seq<WeekKey> {
    SortDescending(DropDuplicates(WeekColumns(t)))
  }

  /**
   * The archive lists every pair present in the table and no other, strictly
   * descending by (Annee, Semaine); it is empty exactly when the table is.
   */
  lemma ArchivesSpec(t: seq<Row>)
    ensures StrictlyDescending(Archives(t))
    ensures forall k :: k in Archives(t) <==> exists i :: 0 <= i < |t| && WeekOf(t[i]) == k
    ensures Archives(t) == [] <==> t == []
  {
    var cols := WeekColumns(t);
    var distinct := DropDuplicates(cols);
    var r := Archives(t);
    SortDescendingSpec(distinct);
    forall k ensures k in r <==> k in distinct {
      assert k in r <==> k in multiset(r);
    }
    forall k ensures k in cols <==> exists i :: 0 <= i < |t| && WeekOf(t[i]) == k {
      if k in cols {
        var i :| 0 <= i < |cols| && cols[i] == k;
        assert WeekOf(t[i]) == k;
      }
    }
    if t != [] {
      assert WeekOf(t[0]) in r;
    }
  }

  /** A strictly descending list holds each of its pairs exactly once. */
  lemma {:induction false} StrictlyDescendingCounts(s: seq<WeekKey>, k: WeekKey)
    requires StrictlyDescending(s)
    ensures multiset(s)[k] == if k in s then 1 else 0
  {
    if s != [] {
      assert s == [s[0]] + s[1..];
      assert StrictlyDescending(s[1..]) by {
        forall i, j | 0 <= i < j < |s[1..]| ensures Later(s[1..][i], s[1..][j]) {
          assert s[1..][i] == s[i + 1] && s[1..][j] == s[j + 1];
        }
      }
      StrictlyDescendingCounts(s[1..], k);
      if k == s[0] {
        assert k !in s[1..];
      }
    }
  }

  /** Every pair present in the table appears exactly once in the archive list. */
  lemma ArchivesOnce(t: seq<Row>, i: nat)
    requires i < |t|
    ensures multiset(Archives(t))[WeekOf(t[i])] == 1
  {
    ArchivesSpec(t);
    StrictlyDescendingCounts(Archives(t), WeekOf(t[i]));
  }

  /** One line of the history table: a day and its Midi and Soir menus, if any. */
  datatype PivotRow = PivotRow(jour: Day, midi: Option<string>, soir: Option<string>)

  /** The chosen week's rows laid out as one line per day, Lundi first. */
  function HistoryTable(t: seq<Row>, key: WeekKey): (r: seq<PivotRow>)
    ensures |r| == |Days|
  {
    var week := Select(t, WeekIs(key.annee, key.semaine));
    seq(|Days|, k requires 0 <= k < |Days| =>
      PivotRow(Days[k], Find(week, key.annee, key.semaine, Days[k], Midi),
                        Find(week, key.annee, key.semaine, Days[k], Soir)))
  }

  /**
   * Line k of the history table is day k of `Days`; over a table with unique
   * keys, a cell holds the menu of the row at that cell, and is empty exactly
   * when no row is at it.
   */
  lemma HistoryTableCells(t: seq<Row>, key: WeekKey, k: nat)
    requires KeysUnique(t) && k < |Days|
    ensures HistoryTable(t, key)[k].jour == Days[k]
    ensures forall i :: 0 <= i < |t| && WeekOf(t[i]) == key && t[i].jour == Days[k] ==>
              (if t[i].moment == Midi then HistoryTable(t, key)[k].midi else HistoryTable(t, key)[k].soir) == Some(t[i].menu)
    ensures HistoryTable(t, key)[k].midi == None <==>
              forall i :: 0 <= i < |t| ==> !Holds(CellIs(key.annee, key.semaine, Days[k], Midi), t[i])
    ensures HistoryTable(t, key)[k].soir == None <==>
              forall i :: 0 <= i < |t| ==> !Holds(CellIs(key.annee, key.semaine, Days[k], Soir), t[i])
  {
    var y, w := key.annee, key.semaine;
    FindWithinWeek(t, y, w, Days[k], Midi);
    FindWithinWeek(t, y, w, Days[k], Soir);
    FindFirstMatch(t, y, w, Days[k], Midi);
    FindFirstMatch(t, y, w, Days[k], Soir);
    forall i | 0 <= i < |t| && WeekOf(t[i]) == key && t[i].jour == Days[k]
      ensures (if t[i].moment == Midi then HistoryTable(t, key)[k].midi else HistoryTable(t, key)[k].soir) == Some(t[i].menu)
    {
      FindUnique(t, i);
    }
  }
}
