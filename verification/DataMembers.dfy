/** Data members of a class that are gone and others that are new, paired by the offset they share. */
module DataMembers {
  import opened ChangeTables

  /** The names in a table are the names of its elements. */
  ghost predicate WellNamed<K, T>(table: map<K, T>, key: T -> K) {
    forall k :: k in table ==> key(table[k]) == k
  }

  /** Some member of the table is at that offset. */
  ghost predicate Occupied<K, T>(table: map<K, T>, offset: T -> nat, o: nat) {
    exists k :: k in table && offset(table[k]) == o
  }

  /** `byOffset` has one member of the table, whichever it is, for each offset that is occupied. */
  ghost predicate Representatives<K, T>(byOffset: map<nat, T>, table: map<K, T>, key: T -> K, offset: T -> nat) {
    && (forall o :: o in byOffset ==>
          offset(byOffset[o]) == o && key(byOffset[o]) in table && table[key(byOffset[o])] == byOffset[o])
    && (forall k :: k in table ==> offset(table[k]) in byOffset)
  }

  ghost function Names<K, T>(sides: map<nat, T>, key: T -> K): set<K> {
    set o | o in sides :: key(sides[o])
  }

  /** The sides are members of the table, and no member is a side twice. */
  ghost predicate SidesOf<K, T>(sides: map<nat, T>, table: map<K, T>, key: T -> K) {
    && (forall o :: o in sides ==> key(sides[o]) in table && table[key(sides[o])] == sides[o])
    && (forall o, p :: o in sides && p in sides && key(sides[o]) == key(sides[p]) ==> o == p)
  }

  /** Each member of `before` is either still in `after`, or it is on one side of exactly one change. */
  ghost predicate Conserved<K, T>(before: map<K, T>, after: map<K, T>, sides: map<nat, T>, key: T -> K) {
    && SidesOf(sides, before, key)
    && after == before - Names(sides, key)
    && |after| + |sides| == |before|
  }

  ghost function OldSides<T>(changed: map<nat, (T, T)>): map<nat, T> {
    map o | o in changed :: changed[o].0
  }

  ghost function NewSides<T>(changed: map<nat, (T, T)>): map<nat, T> {
    map o | o in changed :: changed[o].1
  }

  class DataMemberTables<K(==), T> {
    var deleted: map<K, T>
    var inserted: map<K, T>
    var deletedByOffset: map<nat, T>
    var insertedByOffset: map<nat, T>
    var changed: map<nat, (T, T)>

    /** Start from the members that were found to be deleted and inserted, by name. */
    constructor (deleted: map<K, T>, inserted: map<K, T>)
      ensures this.deleted == deleted && this.inserted == inserted
      ensures deletedByOffset == map[] && insertedByOffset == map[] && changed == map[]
    {
      this.deleted, this.inserted := deleted, inserted;
      deletedByOffset, insertedByOffset, changed := map[], map[], map[];
    }

    /** When a member is deleted from an offset and another one is inserted there, say that the member at
        that offset changed.  When several members share an offset, the last one that the program comes
        across stands for it; the order of an unordered map is arbitrary. */
    method PairByOffset(key: T -> K, offset: T -> nat)
      requires WellNamed(deleted, key) && WellNamed(inserted, key)
      requires deletedByOffset == map[] && insertedByOffset == map[] && changed == map[]
      modifies this
      ensures forall o: nat :: o in changed <==> old(Occupied(deleted, offset, o)) && old(Occupied(inserted, offset, o))
      ensures forall o :: o in changed ==> offset(changed[o].0) == o == offset(changed[o].1)
      ensures Conserved(old(deleted), deleted, OldSides(changed), key)
      ensures Conserved(old(inserted), inserted, NewSides(changed), key)
      ensures forall o: nat :: o in deletedByOffset <==>
          old(Occupied(deleted, offset, o)) && !old(Occupied(inserted, offset, o))
      ensures forall o: nat :: o in insertedByOffset <==>
          old(Occupied(inserted, offset, o)) && !old(Occupied(deleted, offset, o))
    {
      deletedByOffset := ByOffset(deleted, key, offset);
      insertedByOffset := ByOffset(inserted, key, offset);
      RepresentativesOccupy(deletedByOffset, deleted, key, offset);
      RepresentativesOccupy(insertedByOffset, inserted, key, offset);
      Match(offset);
      Erase(key, offset);
    }

    /** Pair the members that stand for the same offset. */
    method Match(offset: T -> nat)
      requires changed == map[]
      modifies `changed
      ensures changed == map o | o in insertedByOffset && o in deletedByOffset ::
          (deletedByOffset[o], insertedByOffset[o])
    {
      var todo := insertedByOffset.Keys;
      while todo != {}
        invariant todo <= insertedByOffset.Keys
        invariant changed == map o | o in insertedByOffset && o !in todo && o in deletedByOffset ::
            (deletedByOffset[o], insertedByOffset[o])
        decreases |todo|
      {
        var o :| o in todo;
        todo := todo - {o};
        if o in deletedByOffset {
          changed := changed[o := (deletedByOffset[o], insertedByOffset[o])];
        }
      }
    }

    /** Take the members that changed out of the tables of deletions and insertions. */
    method Erase(key: T -> K, offset: T -> nat)
      requires WellNamed(deleted, key) && WellNamed(inserted, key)
      requires Representatives(deletedByOffset, deleted, key, offset)
          && Representatives(insertedByOffset, inserted, key, offset)
      requires changed == map o | o in insertedByOffset && o in deletedByOffset ::
          (deletedByOffset[o], insertedByOffset[o])
      modifies `deleted, `inserted, `deletedByOffset, `insertedByOffset
      ensures Conserved(old(deleted), deleted, OldSides(changed), key)
      ensures Conserved(old(inserted), inserted, NewSides(changed), key)
      ensures deletedByOffset == old(deletedByOffset) - changed.Keys
      ensures insertedByOffset == old(insertedByOffset) - changed.Keys
    {
      hide Conserved, SidesOf, Representatives;
      ghost var deleted0, inserted0, olds, news := deleted, inserted, OldSides(changed), NewSides(changed);
      RepresentativesAreSides(deletedByOffset, deleted, olds, key, offset);
      RepresentativesAreSides(insertedByOffset, inserted, news, key, offset);
      ConservedNothing(deleted, olds, key);
      ConservedNothing(inserted, news, key);
      EraseAll(key);
      ConservedAll(deleted0, deleted, olds, key);
      ConservedAll(inserted0, inserted, news, key);
    }

    method EraseAll(key: T -> K)
      requires SidesOf(OldSides(changed), deleted, key) && SidesOf(NewSides(changed), inserted, key)
      requires Conserved(deleted, deleted, OldSides(changed) - OldSides(changed).Keys, key)
      requires Conserved(inserted, inserted, NewSides(changed) - NewSides(changed).Keys, key)
      modifies `deleted, `inserted, `deletedByOffset, `insertedByOffset
      ensures Conserved(old(deleted), deleted, OldSides(changed) - {}, key)
      ensures Conserved(old(inserted), inserted, NewSides(changed) - {}, key)
      ensures deletedByOffset == old(deletedByOffset) - changed.Keys
      ensures insertedByOffset == old(insertedByOffset) - changed.Keys
    {
      hide Conserved, SidesOf, Without;
      ghost var deleted0, inserted0, olds, news := deleted, inserted, OldSides(changed), NewSides(changed);
      ghost var deletedByOffset0, insertedByOffset0 := deletedByOffset, insertedByOffset;
      var todo := changed.Keys;
      assert todo == olds.Keys == news.Keys;
      WithoutBounds(deletedByOffset0, changed.Keys);
      WithoutBounds(insertedByOffset0, changed.Keys);
      while todo != {}
        invariant todo <= changed.Keys == olds.Keys == news.Keys
        invariant Conserved(deleted0, deleted, olds - todo, key)
        invariant Conserved(inserted0, inserted, news - todo, key)
        invariant deletedByOffset == Without(deletedByOffset0, changed.Keys, todo)
        invariant insertedByOffset == Without(insertedByOffset0, changed.Keys, todo)
        decreases |todo|
      {
        var o :| o in todo;
        ConservedMore(deleted0, deleted, olds, todo, key, o);
        ConservedMore(inserted0, inserted, news, todo, key, o);
        WithoutOneMore(deletedByOffset0, changed.Keys, todo, o);
        WithoutOneMore(insertedByOffset0, changed.Keys, todo, o);
        deletedByOffset := deletedByOffset - {o};
        insertedByOffset := insertedByOffset - {o};
        deleted := deleted - {key(changed[o].0)};
        inserted := inserted - {key(changed[o].1)};
        todo := todo - {o};
      }
    }
  }

  /** The table without those keys that are dealt with. */
  ghost function Without<T>(table: map<nat, T>, keys: set<nat>, todo: set<nat>): map<nat, T> {
    table - (keys - todo)
  }

  lemma WithoutOneMore<T>(table: map<nat, T>, keys: set<nat>, todo: set<nat>, o: nat)
    requires o in todo && todo <= keys
    ensures Without(table, keys, todo - {o}) == Without(table, keys, todo) - {o}
  {
  }

  lemma WithoutBounds<T>(table: map<nat, T>, keys: set<nat>)
    ensures Without(table, keys, keys) == table && Without(table, keys, {}) == table - keys
  {
  }

  lemma NamesStep<K, T>(sides: map<nat, T>, table: map<K, T>, key: T -> K, o: nat, side: T)
    requires SidesOf(sides, table, key) && o !in sides
    requires key(side) in table && table[key(side)] == side
    requires forall p :: p in sides ==> key(sides[p]) != key(side)
    ensures Names(sides[o := side], key) == Names(sides, key) + {key(side)}
    ensures key(side) !in Names(sides, key)
    ensures SidesOf(sides[o := side], table, key)
  {
    var sides' := sides[o := side];
    forall k | k in Names(sides, key) + {key(side)}
      ensures k in Names(sides', key)
    {
      if k == key(side) {
        assert o in sides' && key(sides'[o]) == k;
      } else {
        var p :| p in sides && key(sides[p]) == k;
        assert p in sides' && key(sides'[p]) == k;
      }
    }
  }

  lemma OneLess<K, T>(table: map<K, T>, k: K)
    requires k in table
    ensures |table - {k}| == |table| - 1
  {
  }

  lemma OneMore<T>(sides: map<nat, T>, o: nat, side: T)
    requires o !in sides
    ensures |sides[o := side]| == |sides| + 1
  {
  }

  /** Taking one more side out of the table conserves the members. */
  lemma ConservedStep<K, T>(before: map<K, T>, after: map<K, T>, sides: map<nat, T>, key: T -> K, o: nat, side: T)
    requires Conserved(before, after, sides, key) && o !in sides
    requires key(side) in before && before[key(side)] == side
    requires forall p :: p in sides ==> key(sides[p]) != key(side)
    ensures Conserved(before, after - {key(side)}, sides[o := side], key)
  {
    hide Names, SidesOf;
    var k := key(side);
    NamesStep(sides, before, key, o, side);
    assert k in after;
    OneLess(after, k);
    OneMore(sides, o, side);
    assert after - {k} == before - (Names(sides, key) + {k});
  }

  /** Dealing with one more of all the changes. */
  lemma ConservedMore<K, T>(before: map<K, T>, after: map<K, T>, sides: map<nat, T>, todo: set<nat>, key: T -> K,
                            o: nat)
    requires SidesOf(sides, before, key) && o in todo && o in sides
    requires Conserved(before, after, sides - todo, key)
    ensures Conserved(before, after - {key(sides[o])}, sides - (todo - {o}), key)
  {
    hide Conserved;
    assert sides - (todo - {o}) == (sides - todo)[o := sides[o]];
    ConservedStep(before, after, sides - todo, key, o, sides[o]);
  }

  lemma ConservedNothing<K, T>(before: map<K, T>, sides: map<nat, T>, key: T -> K)
    ensures Conserved(before, before, sides - sides.Keys, key)
  {
  }

  lemma ConservedAll<K, T>(before: map<K, T>, after: map<K, T>, sides: map<nat, T>, key: T -> K)
    requires Conserved(before, after, sides - {}, key)
    ensures Conserved(before, after, sides, key)
  {
    assert sides - {} == sides;
  }

  /** The sides of the changes are members that stand for different offsets. */
  lemma RepresentativesAreSides<K, T>(byOffset: map<nat, T>, table: map<K, T>, sides: map<nat, T>, key: T -> K,
                                      offset: T -> nat)
    requires Representatives(byOffset, table, key, offset)
    requires forall o :: o in sides ==> o in byOffset && sides[o] == byOffset[o]
    ensures SidesOf(sides, table, key)
  {
  }

  /** Go through the members of a table in any order, and keep the last one for each offset. */
  method ByOffset<K(==), T>(table: map<K, T>, key: T -> K, offset: T -> nat) returns (byOffset: map<nat, T>)
    requires WellNamed(table, key)
    ensures Representatives(byOffset, table, key, offset)
  {
    byOffset := map[];
    var todo := table.Keys;
    while todo != {}
      invariant todo <= table.Keys
      invariant forall o :: o in byOffset ==>
                  offset(byOffset[o]) == o && key(byOffset[o]) in table && table[key(byOffset[o])] == byOffset[o]
      invariant forall k :: k in table && k !in todo ==> offset(table[k]) in byOffset
      decreases |todo|
    {
      var k :| k in todo;
      todo := todo - {k};
      byOffset := byOffset[offset(table[k]) := table[k]];
    }
  }

  lemma RepresentativesOccupy<K, T>(byOffset: map<nat, T>, table: map<K, T>, key: T -> K, offset: T -> nat)
    requires Representatives(byOffset, table, key, offset)
    ensures forall o: nat :: o in byOffset <==> Occupied(table, offset, o)
  {
  }

  // ----- From two sequences of members to all the tables

  lemma ExpectedWellNamed<K, T>(first: seq<T>, second: seq<T>, key: T -> K, eq: (T, T) -> bool)
    ensures var e := Expected(Table(first, key), Table(second, key), eq);
            WellNamed(e.deleted, key) && WellNamed(e.inserted, key)
  {
  }

  /** Exactly one of the three holds. */
  predicate ExactlyOne(a: bool, b: bool, c: bool) {
    (a || b || c) && !(a && b) && !(a && c) && !(b && c)
  }

  /** Each member of a table is in the other table, or left over, or a side of exactly one change. */
  ghost predicate EachOnce<K, T>(table: map<K, T>, other: map<K, T>, left: map<K, T>, sides: map<nat, T>, key: T -> K) {
    && (forall k :: k in table ==> ExactlyOne(k in other, k in left, k in Names(sides, key)))
    && (forall k :: k in left ==> k in table && left[k] == table[k])
    && SidesOf(sides, table, key)
  }

  lemma ConservedEachOnce<K, T>(table: map<K, T>, other: map<K, T>, left: map<K, T>, sides: map<nat, T>, key: T -> K)
    requires Conserved(table - other.Keys, left, sides, key)
    ensures EachOnce(table, other, left, sides, key)
  {
    forall k | k in Names(sides, key)
      ensures k in table - other.Keys
    {
      var o :| o in sides && key(sides[o]) == k;
    }
  }

  /** Nothing deleted is left at the same offset as something inserted, unless something changed there. */
  ghost predicate PairedUp<K, T>(deleted: map<K, T>, inserted: map<K, T>, changed: map<nat, (T, T)>, offset: T -> nat) {
    forall k, l :: k in deleted && l in inserted && offset(deleted[k]) == offset(inserted[l]) ==>
        offset(deleted[k]) in changed
  }

  lemma AllPairedUp<K, T>(deleted0: map<K, T>, inserted0: map<K, T>, deleted: map<K, T>, inserted: map<K, T>,
                          changed: map<nat, (T, T)>, offset: T -> nat)
    requires forall o: nat :: o in changed <==> Occupied(deleted0, offset, o) && Occupied(inserted0, offset, o)
    requires forall k :: k in deleted ==> k in deleted0 && deleted[k] == deleted0[k]
    requires forall k :: k in inserted ==> k in inserted0 && inserted[k] == inserted0[k]
    ensures PairedUp(deleted, inserted, changed, offset)
  {
  }

  lemma ConservedPart<K, T>(before: map<K, T>, after: map<K, T>, sides: map<nat, T>, key: T -> K)
    requires Conserved(before, after, sides, key)
    ensures forall k :: k in after ==> k in before && after[k] == before[k]
  {
  }

  /** Compare the data members of two classes.  A member of the first class is matched by name, or is
      deleted, or is the old side of a change at one offset, and only one of these; and likewise for the
      members of the second class. */
  method CompareDataMembers<K, T>(first: seq<T>, second: seq<T>, key: T -> K, eq: (T, T) -> bool, offset: T -> nat)
    returns (tables: LookupTables<K, T>, members: DataMemberTables<K, T>)
    requires UniqueKeys(first, key) && UniqueKeys(second, key) && EqualHaveSameKey(first, second, key, eq)
    ensures tables.changed == Expected(Table(first, key), Table(second, key), eq).changed
    ensures EachOnce(Table(first, key), Table(second, key), members.deleted, OldSides(members.changed), key)
    ensures EachOnce(Table(second, key), Table(first, key), members.inserted, NewSides(members.changed), key)
    ensures forall o :: o in members.changed ==> offset(members.changed[o].0) == o == offset(members.changed[o].1)
    ensures PairedUp(members.deleted, members.inserted, members.changed, offset)
  {
    hide Table, UniqueKeys, EqualHaveSameKey, Names, Conserved, EachOnce, PairedUp, WellNamed, Occupied, OldSides,
         NewSides;
    tables := Compare(first, second, key, eq);
    ExpectedWellNamed(first, second, key, eq);
    ghost var t1, t2 := Table(first, key), Table(second, key);
    members := new DataMemberTables(tables.deleted, tables.inserted);
    members.PairByOffset(key, offset);
    ConservedEachOnce(t1, t2, members.deleted, OldSides(members.changed), key);
    ConservedEachOnce(t2, t1, members.inserted, NewSides(members.changed), key);
    ConservedPart(t1 - t2.Keys, members.deleted, OldSides(members.changed), key);
    ConservedPart(t2 - t1.Keys, members.inserted, NewSides(members.changed), key);
    AllPairedUp(t1 - t2.Keys, t2 - t1.Keys, members.deleted, members.inserted, members.changed, offset);
  }
}
