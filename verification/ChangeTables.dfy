/** Edit scripts turned into tables of deleted, inserted and changed elements, by name. */
module ChangeTables {
  import opened EditGraph
  import opened MiddleSnake
  import opened EditScripts
  import opened ComputeDiff
  import opened ShortestScript

  // ----- Sequences of named elements

  /** No two elements have the same name. */
  ghost predicate UniqueKeys<K, T>(s: seq<T>, key: T -> K) {
    forall i, j :: 0 <= i < j < |s| ==> key(s[i]) != key(s[j])
  }

  /** Elements that are equal have the same name. */
  ghost predicate EqualHaveSameKey<K, T>(first: seq<T>, second: seq<T>, key: T -> K, eq: (T, T) -> bool) {
    forall i, j :: 0 <= i < |first| && 0 <= j < |second| && eq(first[i], second[j]) ==> key(first[i]) == key(second[j])
  }

  /** The elements by name. */
  ghost function Table<K, T>(s: seq<T>, key: T -> K): (t: map<K, T>)
    ensures forall k :: k in t ==> exists i :: 0 <= i < |s| && key(s[i]) == k && t[k] == s[i]
    ensures forall i :: 0 <= i < |s| ==> key(s[i]) in t
  {
    if s == [] then map[] else Table(s[..|s| - 1], key)[key(s[|s| - 1]) := s[|s| - 1]]
  }

  lemma TableEmpty<K, T>(key: T -> K)
    ensures Table<K, T>([], key) == map[]
  {
  }

  lemma TableStep<K, T>(s: seq<T>, key: T -> K, x: nat)
    requires UniqueKeys(s, key) && x < |s|
    ensures key(s[x]) !in Table(s[..x], key)
    ensures Table(s[..x + 1], key) == Table(s[..x], key)[key(s[x]) := s[x]]
  {
    assert s[..x + 1][..x] == s[..x];
  }

  /** The elements that a script picks, one after the other. */
  ghost function Picked<T>(s: seq<T>, indexes: seq<int>): (r: seq<T>)
    requires forall x :: 0 <= x < |indexes| ==> 0 <= indexes[x] < |s|
    ensures |r| == |indexes| && forall x :: 0 <= x < |r| ==> r[x] == s[indexes[x]]
  {
    seq(|indexes|, x requires 0 <= x < |indexes| => s[indexes[x]])
  }

  // ----- The three tables

  datatype Tables<K, T> = Tables(deleted: map<K, T>, inserted: map<K, T>, changed: map<K, (T, T)>)

  /** What the tables should be: the names in one sequence only, and the names in both of them whose
      elements differ. */
  ghost function Expected<K, T>(first: map<K, T>, second: map<K, T>, eq: (T, T) -> bool): Tables<K, T> {
    Tables(first - second.Keys, second - first.Keys,
           map k | k in first && k in second && !eq(first[k], second[k]) :: (first[k], second[k]))
  }

  class LookupTables<K(==), T> {
    var deleted: map<K, T>
    var inserted: map<K, T>
    var changed: map<K, (T, T)>

    constructor ()
      ensures Value() == Tables(map[], map[], map[])
    {
      deleted, inserted, changed := map[], map[], map[];
    }

    ghost function Value(): Tables<K, T>
      reads this
    {
      Tables(deleted, inserted, changed)
    }

    /** Note an inserted element.  If an element of that name has been deleted, then it is the same element
        before and after a change, unless nothing has changed. */
    method Insert(n: T, key: T -> K, eq: (T, T) -> bool)
      requires key(n) !in inserted
      modifies this
      ensures Value() == Inserting(old(Value()), n, key, eq)
    {
      var name := key(n);
      if name !in deleted {
        inserted := inserted[name := n];
      } else {
        if !eq(deleted[name], n) {
          changed := changed[name := (deleted[name], n)];
        }
        deleted := deleted - {name};
      }
    }

    /** Fill the table of deletions.  No two of them have the same name. */
    method Delete(first: seq<T>, key: T -> K, deletions: seq<int>)
      requires UniqueKeys(first, key)
      requires forall x :: 0 <= x < |deletions| ==> 0 <= deletions[x] < |first|
      requires forall x, y :: 0 <= x < y < |deletions| ==> deletions[x] < deletions[y]
      requires deleted == map[]
      modifies `deleted
      ensures deleted == Table(Picked(first, deletions), key)
    {
      hide Table, UniqueKeys;
      ghost var ns := Picked(first, deletions);
      UniquePicked(first, key, deletions);
      TableEmpty<K, T>(key);
      for x := 0 to |deletions|
        invariant deleted == Table(ns[..x], key)
      {
        var n := first[deletions[x]];
        var name := key(n);
        TableStep(ns, key, x);
        assert name !in deleted;
        deleted := deleted[name := n];
      }
      assert ns[..|ns|] == ns;
    }

    /** Go through the inserted elements.  No two of them have the same name. */
    method InsertAll(second: seq<T>, key: T -> K, eq: (T, T) -> bool, insertions: seq<Insertion>)
      requires UniqueKeys(second, key)
      requires forall x :: 0 <= x < |Flat(insertions)| ==> 0 <= Flat(insertions)[x].index < |second|
      requires forall x, y :: 0 <= x < y < |Flat(insertions)| ==> Flat(insertions)[x].index < Flat(insertions)[y].index
      requires inserted == map[] && changed == map[]
      modifies this
      ensures Value() == Expected(old(deleted), Table(Picked(second, Indexes(Flat(insertions))), key), eq)
    {
      hide Flat, Inserting, InsertingAll, Expected, UniqueKeys;
      ghost var flat := Flat(insertions);
      ghost var ns := Picked(second, Indexes(flat));
      UniquePicked(second, key, Indexes(flat));
      ghost var start := Tables(deleted, map[], map[]);
      ghost var done := 0;
      FlatEmpty();
      InsertingNothing(start, key, eq);
      for x := 0 to |insertions|
        invariant done == |Flat(insertions[..x])| <= |flat| && Value() == InsertingAll(start, ns[..done], key, eq)
      {
        var indexes := insertions[x].indexes;
        FlatPrefix(insertions, x);
        for y := 0 to |indexes|
          invariant done == |Flat(insertions[..x])| + y <= |flat|
          invariant Value() == InsertingAll(start, ns[..done], key, eq)
        {
          assert flat[done] == Inserted(insertions[x].point, indexes[y]);
          var n := second[indexes[y]];
          assert n == ns[done];
          InsertingStep(start.deleted, ns, done, key, eq);
          Insert(n, key, eq);
          done := done + 1;
        }
      }
      assert insertions[..|insertions|] == insertions && ns[..|ns|] == ns;
      InsertingAllGivesExpected(start.deleted, ns, key, eq);
    }

    /** If the tables are not yet built, walk the script and fill them. */
    method EnsureLookupTablesPopulated(first: seq<T>, second: seq<T>, key: T -> K, eq: (T, T) -> bool, e: EditScript)
      requires CorrectScript(first, second, key, eq, Flat(e.insertions), e.deletions)
      modifies this
      ensures Value() == if old(Value()) == Tables(map[], map[], map[])
                         then Expected(Table(first, key), Table(second, key), eq) else old(Value())
    {
      hide IsSecond, Apply, Expected, Matches, Table, Picked, Indexes, Flat;
      if !(|deleted| == 0 && |inserted| == 0 && |changed| == 0) {
        return;
      }
      ScriptGivesExpected(first, second, key, eq, Flat(e.insertions), e.deletions);
      Delete(first, key, e.deletions);
      InsertAll(second, key, eq, e.insertions);
    }
  }

  lemma FlatEmpty()
    ensures Flat([]) == []
  {
  }

  /** The elements of the insertion at x come right after those of the insertions in front of it. */
  lemma {:induction false} FlatPrefix(insertions: seq<Insertion>, x: nat)
    requires x < |insertions|
    ensures var before, here := |Flat(insertions[..x])|, insertions[x];
            && |Flat(insertions[..x + 1])| == before + |here.indexes| <= |Flat(insertions)|
            && forall y :: 0 <= y < |here.indexes| ==>
                Flat(insertions)[before + y] == Inserted(here.point, here.indexes[y])
  {
    var head := insertions[..x + 1];
    assert head[..x] == insertions[..x];
    FlatConcat(head, insertions[x + 1..]);
    assert insertions == head + insertions[x + 1..];
    forall y | 0 <= y < |insertions[x].indexes|
      ensures Flat(insertions)[|Flat(insertions[..x])| + y] == Inserted(insertions[x].point, insertions[x].indexes[y])
    {
      assert Flat(head)[|Flat(insertions[..x])| + y] == Inserted(insertions[x].point, insertions[x].indexes[y]);
    }
  }

  /** The same on values. */
  function Inserting<K, T>(t: Tables<K, T>, n: T, key: T -> K, eq: (T, T) -> bool): Tables<K, T> {
    var name := key(n);
    if name !in t.deleted then t.(inserted := t.inserted[name := n])
    else
      t.(deleted := t.deleted - {name},
         changed := if eq(t.deleted[name], n) then t.changed else t.changed[name := (t.deleted[name], n)])
  }

  ghost function InsertingAll<K, T>(t: Tables<K, T>, ns: seq<T>, key: T -> K, eq: (T, T) -> bool): Tables<K, T> {
    if ns == [] then t else Inserting(InsertingAll(t, ns[..|ns| - 1], key, eq), ns[|ns| - 1], key, eq)
  }

  lemma InsertingGivesExpected<K, T>(deleted: map<K, T>, t: map<K, T>, n: T, key: T -> K, eq: (T, T) -> bool)
    requires key(n) !in t
    ensures Inserting(Expected(deleted, t, eq), n, key, eq) == Expected(deleted, t[key(n) := n], eq)
  {
    var u, v := Inserting(Expected(deleted, t, eq), n, key, eq), Expected(deleted, t[key(n) := n], eq);
    assert u.deleted == v.deleted;
    assert u.inserted == v.inserted;
    assert u.changed == v.changed;
  }

  /** After inserting elements of different names into a table of deletions, the tables are what they should
      be for these two sets of elements. */
  lemma {:induction false} InsertingAllGivesExpected<K, T>(deleted: map<K, T>, ns: seq<T>, key: T -> K,
                                                           eq: (T, T) -> bool)
    requires UniqueKeys(ns, key)
    ensures InsertingAll(Tables(deleted, map[], map[]), ns, key, eq) == Expected(deleted, Table(ns, key), eq)
  {
    hide Expected, Inserting;
    if ns == [] {
      ExpectedNothing(deleted, eq);
    } else {
      var n := |ns| - 1;
      InsertingAllGivesExpected(deleted, ns[..n], key, eq);
      InsertingGivesExpected(deleted, Table(ns[..n], key), ns[n], key, eq);
    }
  }

  lemma ExpectedNothing<K, T>(deleted: map<K, T>, eq: (T, T) -> bool)
    ensures Expected(deleted, map[], eq) == Tables(deleted, map[], map[])
  {
  }

  lemma InsertingNothing<K, T>(t: Tables<K, T>, key: T -> K, eq: (T, T) -> bool)
    ensures InsertingAll(t, [], key, eq) == t
  {
  }

  /** Elements of different names can be inserted one after the other. */
  lemma InsertingStep<K, T>(deleted: map<K, T>, ns: seq<T>, n: nat, key: T -> K, eq: (T, T) -> bool)
    requires n < |ns| && UniqueKeys(ns, key)
    ensures var before := InsertingAll(Tables(deleted, map[], map[]), ns[..n], key, eq);
            && key(ns[n]) !in before.inserted
            && InsertingAll(Tables(deleted, map[], map[]), ns[..n + 1], key, eq) == Inserting(before, ns[n], key, eq)
  {
    hide Inserting;
    InsertingAllGivesExpected(deleted, ns[..n], key, eq);
    assert ns[..n + 1][..n] == ns[..n];
  }

  // ----- Any correct script gives the same tables

  ghost function Indexes(flat: seq<Inserted>): (r: seq<int>)
    ensures |r| == |flat| && forall x :: 0 <= x < |flat| ==> r[x] == flat[x].index
  {
    seq(|flat|, x requires 0 <= x < |flat| => flat[x].index)
  }

  lemma UniquePicked<K, T>(s: seq<T>, key: T -> K, indexes: seq<int>)
    requires UniqueKeys(s, key)
    requires forall x :: 0 <= x < |indexes| ==> 0 <= indexes[x] < |s|
    requires forall x, y :: 0 <= x < y < |indexes| ==> indexes[x] < indexes[y]
    ensures UniqueKeys(Picked(s, indexes), key)
  {
  }

  /** An element of the first sequence that is not deleted has an equal element in the second one that is
      not inserted. */
  lemma KeptHasEqual<T>(first: seq<T>, second: seq<T>, eq: (T, T) -> bool, flat: seq<Inserted>, deletions: seq<int>,
                        i: nat)
    returns (j: nat)
    requires IsSecond(Matches(first, second, eq), |second|, Apply(flat, deletions, |first|))
    requires InOrder(|first|, |second|, flat, deletions)
    requires i < |first| && i !in deletions
    ensures j < |second| && eq(first[i], second[j]) && j !in Indexes(flat)
  {
    var result := Apply(flat, deletions, |first|);
    ApplyOrigins(flat, deletions, |first|, First(i));
    j :| 0 <= j < |result| && result[j] == First(i);
    assert Matches(first, second, eq)(i, j);
    ApplyOrigins(flat, deletions, |first|, Second(j));
  }

  lemma NotInsertedHasEqual<T>(first: seq<T>, second: seq<T>, eq: (T, T) -> bool, flat: seq<Inserted>,
                               deletions: seq<int>, j: nat)
    returns (i: nat)
    requires IsSecond(Matches(first, second, eq), |second|, Apply(flat, deletions, |first|))
    requires j < |second| && j !in Indexes(flat)
    ensures i < |first| && i !in deletions && eq(first[i], second[j])
  {
    var result := Apply(flat, deletions, |first|);
    ApplyOrigins(flat, deletions, |first|, result[j]);
    assert forall x :: 0 <= x < |flat| ==> Indexes(flat)[x] == flat[x].index;
    assert result[j].First?;
    assert Matches(first, second, eq)(result[j].i, j);
    i := result[j].i;
  }

  lemma TableAt<K, T>(s: seq<T>, key: T -> K, i: nat)
    requires UniqueKeys(s, key) && i < |s|
    ensures key(s[i]) in Table(s, key) && Table(s, key)[key(s[i])] == s[i]
  {
  }

  /** `part` holds those elements of `s` that a script picks. */
  lemma PickedTable<K, T>(s: seq<T>, key: T -> K, indexes: seq<int>, i: nat)
    requires UniqueKeys(s, key) && i < |s|
    requires forall x :: 0 <= x < |indexes| ==> 0 <= indexes[x] < |s|
    requires forall x, y :: 0 <= x < y < |indexes| ==> indexes[x] < indexes[y]
    ensures i in indexes <==> key(s[i]) in Table(Picked(s, indexes), key)
    ensures i in indexes ==> Table(Picked(s, indexes), key)[key(s[i])] == s[i]
  {
    UniquePicked(s, key, indexes);
    var r := Picked(s, indexes);
    if i in indexes {
      var x :| 0 <= x < |indexes| && indexes[x] == i;
      TableAt(r, key, x);
    }
  }

  /** The two parts are all there is to tell the whole tables apart. */
  lemma PartsGiveExpected<K, T>(first: map<K, T>, second: map<K, T>, part1: map<K, T>, part2: map<K, T>,
                                eq: (T, T) -> bool)
    requires forall k :: k in part1 ==> k in first && first[k] == part1[k]
    requires forall k :: k in part2 ==> k in second && second[k] == part2[k]
    requires forall k :: k in first && k !in part1 ==> k in second && k !in part2 && eq(first[k], second[k])
    requires forall k :: k in second && k !in part2 ==> k in first && k !in part1
    ensures Expected(part1, part2, eq) == Expected(first, second, eq)
  {
    assert Expected(part1, part2, eq).deleted == Expected(first, second, eq).deleted;
    assert Expected(part1, part2, eq).inserted == Expected(first, second, eq).inserted;
    assert Expected(part1, part2, eq).changed == Expected(first, second, eq).changed;
  }

  lemma PickedInWhole<K, T>(s: seq<T>, key: T -> K, indexes: seq<int>, k: K)
    requires UniqueKeys(s, key)
    requires forall x :: 0 <= x < |indexes| ==> 0 <= indexes[x] < |s|
    requires forall x, y :: 0 <= x < y < |indexes| ==> indexes[x] < indexes[y]
    requires k in Table(Picked(s, indexes), key)
    ensures k in Table(s, key) && Table(s, key)[k] == Table(Picked(s, indexes), key)[k]
  {
  }

  /** A correct script, for sequences of elements with different names. */
  ghost predicate CorrectScript<K, T>(first: seq<T>, second: seq<T>, key: T -> K, eq: (T, T) -> bool,
                                      flat: seq<Inserted>, deletions: seq<int>) {
    && IsSecond(Matches(first, second, eq), |second|, Apply(flat, deletions, |first|))
    && InOrder(|first|, |second|, flat, deletions)
    && UniqueKeys(first, key) && UniqueKeys(second, key) && EqualHaveSameKey(first, second, key, eq)
  }

  lemma KeptKey<K, T>(first: seq<T>, second: seq<T>, key: T -> K, eq: (T, T) -> bool, flat: seq<Inserted>,
                      deletions: seq<int>, k: K)
    requires CorrectScript(first, second, key, eq, flat, deletions)
    requires k in Table(first, key) && k !in Table(Picked(first, deletions), key)
    ensures k in Table(second, key) && k !in Table(Picked(second, Indexes(flat)), key)
    ensures eq(Table(first, key)[k], Table(second, key)[k])
  {
    hide IsSecond, Apply, Matches;
    var i :| 0 <= i < |first| && key(first[i]) == k && Table(first, key)[k] == first[i];
    PickedTable(first, key, deletions, i);
    var j := KeptHasEqual(first, second, eq, flat, deletions, i);
    PickedTable(second, key, Indexes(flat), j);
    TableAt(second, key, j);
  }

  lemma NotInsertedKey<K, T>(first: seq<T>, second: seq<T>, key: T -> K, eq: (T, T) -> bool, flat: seq<Inserted>,
                             deletions: seq<int>, k: K)
    requires CorrectScript(first, second, key, eq, flat, deletions)
    requires k in Table(second, key) && k !in Table(Picked(second, Indexes(flat)), key)
    ensures k in Table(first, key) && k !in Table(Picked(first, deletions), key)
  {
    hide IsSecond, Apply, Matches;
    var j :| 0 <= j < |second| && key(second[j]) == k && Table(second, key)[k] == second[j];
    PickedTable(second, key, Indexes(flat), j);
    var i := NotInsertedHasEqual(first, second, eq, flat, deletions, j);
    PickedTable(first, key, deletions, i);
    TableAt(first, key, i);
  }

  /** Deletions and insertions alone give the tables that the whole sequences give. */
  lemma ScriptGivesExpected<K, T>(first: seq<T>, second: seq<T>, key: T -> K, eq: (T, T) -> bool,
                                  flat: seq<Inserted>, deletions: seq<int>)
    requires CorrectScript(first, second, key, eq, flat, deletions)
    ensures Expected(Table(Picked(first, deletions), key), Table(Picked(second, Indexes(flat)), key), eq)
         == Expected(Table(first, key), Table(second, key), eq)
  {
    hide IsSecond, Apply, Expected, Matches, Table, Picked, Indexes;
    var t1, t2 := Table(first, key), Table(second, key);
    var p1, p2 := Table(Picked(first, deletions), key), Table(Picked(second, Indexes(flat)), key);
    forall k | k in p1
      ensures k in t1 && t1[k] == p1[k]
    {
      PickedInWhole(first, key, deletions, k);
    }
    forall k | k in p2
      ensures k in t2 && t2[k] == p2[k]
    {
      PickedInWhole(second, key, Indexes(flat), k);
    }
    forall k | k in t1 && k !in p1
      ensures k in t2 && k !in p2 && eq(t1[k], t2[k])
    {
      KeptKey(first, second, key, eq, flat, deletions, k);
    }
    forall k | k in t2 && k !in p2
      ensures k in t1 && k !in p1
    {
      NotInsertedKey(first, second, key, eq, flat, deletions, k);
    }
    PartsGiveExpected(t1, t2, p1, p2, eq);
  }

  /** Diff two sequences and fill the tables from the script: whichever shortest script the diff comes up
      with, the tables only depend on what is in the two sequences. */
  method Compare<K, T>(first: seq<T>, second: seq<T>, key: T -> K, eq: (T, T) -> bool)
    returns (tables: LookupTables<K, T>)
    requires UniqueKeys(first, key) && UniqueKeys(second, key) && EqualHaveSameKey(first, second, key, eq)
    ensures fresh(tables) && tables.Value() == Expected(Table(first, key), Table(second, key), eq)
  {
    hide Dist, IsSecond, Apply, Expected, Matches, Table, KeptPoints, NoneLonger, KeptMatch, NeverOdd,
         OddHalvings, Runs, LeftBehind;
    var lcs := new PointVec();
    var changes := new EditScript();
    var length := DiffSequences(first, second, eq, lcs, changes);
    tables := new LookupTables<K, T>();
    tables.EnsureLookupTablesPopulated(first, second, key, eq, changes);
  }
}
