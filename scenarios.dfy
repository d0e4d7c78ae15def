/**
 * The cases of the test program main.c, written as clients of
 * RestrictedDict: each method runs the calls of one test function on a fresh
 * dictionary and promises the return codes the test asserts. Where main.c
 * uses fixed texts ("employee=Andy", "company=Google", "employee-Andy", ...)
 * these methods take any keys and values of the same shape, so each test case
 * is proved for all of them. They verify from the methods' contracts alone.
 */
module Scenarios {
  import opened Wrappers
  import opened Pairs
  import opened HierarchyList
  import opened RestrictedDictionary
  import opened RestrictionProperties

  /** A text a valid pair can be written as. */
  predicate Part(s: string) {
    s != [] && Separator !in s
  }

  /** test_set: a NULL key or value is refused; a key may be set again with a new value. */
  method SetCases(k: string, v: string, v2: string)
    returns (nullKey: int, nullValue: int, first: int, again: int)
    ensures nullKey == Fail && nullValue == Fail
    ensures first == Ok && again == Ok
  {
    var d := new RestrictedDict(10);
    nullKey := d.Set(None, Some(v));
    nullValue := d.Set(Some(k), None);
    first := d.Set(Some(k), Some(v));
    again := d.Set(Some(k), Some(v2));
  }

  /**
   * test_restrict, cases 1 to 4: NULL or malformed arguments are refused. The
   * last call, with a master lacking '=', leaves an empty record behind.
   */
  method RestrictRefusals(k: string, v: string, mk: string, mv: string, noSeparator: string)
    returns (rcs: seq<int>, finalIndex: seq<Parent>)
    requires Part(k) && Part(v) && Separator !in mk && Separator !in noSeparator
    ensures rcs == [Fail, Fail, Fail, Fail]
    ensures finalIndex == [Parent(k, v, [])]
  {
    SplitJoin(Pair(k, v)); ValidJoinIff(Pair(k, v));
    SplitJoin(Pair(mk, mv)); ValidJoinIff(Pair(mk, mv));
    var slave := k + [Separator] + v;
    var master := mk + [Separator] + mv;
    var d := new RestrictedDict(10);
    var r1 := d.Restrict(None, Some(master));
    var r2 := d.Restrict(Some(slave), None);
    var r3 := d.Restrict(Some(noSeparator), Some(master));
    var r4 := d.Restrict(Some(slave), Some(noSeparator));
    rcs := [r1, r2, r3, r4];
    finalIndex := d.index;
  }

  /**
   * test_restrict, cases 6 to 8: two slaves of one key restricted against two
   * masters of one key. The second master upserts over the first.
   */
  method RestrictTwoByTwo(k: string, v1: string, v2: string, mk: string, m1: string, m2: string)
    returns (rcs: seq<int>, finalIndex: seq<Parent>)
    requires Part(k) && Part(v1) && Part(v2) && v1 != v2 && Separator !in mk
    ensures rcs == [Ok, Ok, Ok, Ok]
    ensures finalIndex == [Parent(k, v1, [Child(mk, m2)]), Parent(k, v2, [Child(mk, m2)])]
  {
    var first := Parent(k, v1, [Child(mk, m2)]);
    var second := Parent(k, v2, [Child(mk, m1)]);
    var d := new RestrictedDict(10);
    var r1 := d.Restrict(Some(Join(Pair(k, v1))), Some(Join(Pair(mk, m1))));
    assert r1 == Ok && d.index == [Parent(k, v1, [Child(mk, m1)])] by {
      RestrictEmpty(Pair(k, v1), Pair(mk, m1));
    }
    var r2 := d.Restrict(Some(Join(Pair(k, v1))), Some(Join(Pair(mk, m2))));
    assert r2 == Ok && d.index == [first] by {
      RestrictOverwrite(Pair(k, v1), mk, m1, m2);
    }
    var r3 := d.Restrict(Some(Join(Pair(k, v2))), Some(Join(Pair(mk, m1))));
    assert r3 == Ok && d.index == [first, second] by {
      RestrictSecond(first, Pair(k, v2), Pair(mk, m1));
    }
    var r4 := d.Restrict(Some(Join(Pair(k, v2))), Some(Join(Pair(mk, m2))));
    assert r4 == Ok && d.index == [first, Parent(k, v2, [Child(mk, m2)])] by {
      RestrictOverwriteLast(first, Pair(k, v2), mk, m1, m2);
    }
    rcs := [r1, r2, r3, r4];
    finalIndex := d.index;
  }

  /** A first restrict on an empty index creates one record with one entry. */
  lemma RestrictEmpty(s: Pair, m: Pair)
    requires Part(s.key) && s.value != [] && Separator !in m.key
    ensures RestrictStep([], Some(Join(s)), Some(Join(m))) ==
            Step([Parent(s.key, s.value, [Child(m.key, m.value)])], Ok)
  {
    RestrictNewSlave([], s, m);
    assert [] + [Parent(s.key, s.value, [Child(m.key, m.value)])] ==
           [Parent(s.key, s.value, [Child(m.key, m.value)])];
  }

  /** Restricting the one record again under the same master key overwrites its entry. */
  lemma RestrictOverwrite(s: Pair, mk: string, m1: string, m2: string)
    requires Part(s.key) && s.value != [] && Separator !in mk
    ensures RestrictStep([Parent(s.key, s.value, [Child(mk, m1)])],
                         Some(Join(s)), Some(Join(Pair(mk, m2)))) ==
            Step([Parent(s.key, s.value, [Child(mk, m2)])], Ok)
  {
    var ps := [Parent(s.key, s.value, [Child(mk, m1)])];
    FindParentUnique(ps, 0, s.key, s.value);
    RestrictKnownSlave(ps, 0, s, Pair(mk, m2));
    assert SetChild([Child(mk, m1)], mk, m2) == [Child(mk, m2)] by {
      assert FindKey([Child(mk, m1)], mk) == Some(0);
    }
  }

  /** Restricting a second pair appends its record after the first. */
  lemma RestrictSecond(front: Parent, s: Pair, m: Pair)
    requires Part(s.key) && s.value != [] && Separator !in m.key
    requires !IsParent(front, s.key, s.value)
    ensures RestrictStep([front], Some(Join(s)), Some(Join(m))) ==
            Step([front, Parent(s.key, s.value, [Child(m.key, m.value)])], Ok)
  {
    assert !IsParent([front][0], s.key, s.value);
    RestrictNewSlave([front], s, m);
    assert [front] + [Parent(s.key, s.value, [Child(m.key, m.value)])] ==
           [front, Parent(s.key, s.value, [Child(m.key, m.value)])];
  }

  /** Restricting the last record again under the same master key overwrites its entry. */
  lemma RestrictOverwriteLast(front: Parent, s: Pair, mk: string, m1: string, m2: string)
    requires Part(s.key) && s.value != [] && Separator !in mk
    requires !IsParent(front, s.key, s.value)
    ensures RestrictStep([front, Parent(s.key, s.value, [Child(mk, m1)])],
                         Some(Join(s)), Some(Join(Pair(mk, m2)))) ==
            Step([front, Parent(s.key, s.value, [Child(mk, m2)])], Ok)
  {
    var ps := [front, Parent(s.key, s.value, [Child(mk, m1)])];
    assert FindParent(ps, s.key, s.value) == Some(1);
    RestrictKnownSlave(ps, 1, s, Pair(mk, m2));
    assert SetChild([Child(mk, m1)], mk, m2) == [Child(mk, m2)] by {
      assert FindKey([Child(mk, m1)], mk) == Some(0);
    }
  }

  /**
   * test_restrict_then_set: once the master holds, the restricted pair cannot
   * be set. The master's value may be anything but the "NULL" sentinel.
   */
  method RestrictThenSet(k: string, v: string, mk: string, mv: string)
    returns (restricted: int, masterSet: int, slaveSet: int)
    requires Part(k) && Part(v) && Separator !in mk && mv != Absent
    ensures restricted == Ok && masterSet == Ok && slaveSet == Fail
  {
    SplitJoin(Pair(k, v)); ValidJoinIff(Pair(k, v));
    SplitJoin(Pair(mk, mv)); ValidJoinIff(Pair(mk, mv));
    var d := new RestrictedDict(10);
    restricted := d.Restrict(Some(k + [Separator] + v), Some(mk + [Separator] + mv));
    masterSet := d.Set(Some(mk), Some(mv));
    assert Holds(d.base, d.index[0].children[0]);
    slaveSet := d.Set(Some(k), Some(v));
  }

  /**
   * test_unrestrict, cases 1 to 5: on a fresh dictionary, NULL, malformed
   * or unknown arguments are refused and the index stays empty.
   */
  method UnrestrictRefusals(k: string, v: string, mk: string, mv: string, noSeparator: string)
    returns (rcs: seq<int>, finalIndex: seq<Parent>)
    requires Part(k) && Part(v) && Part(mk) && mv != [] && Separator !in noSeparator
    ensures rcs == [Fail, Fail, Fail, Fail, Fail]
    ensures finalIndex == []
  {
    SplitJoin(Pair(k, v)); ValidJoinIff(Pair(k, v));
    SplitJoin(Pair(mk, mv)); ValidJoinIff(Pair(mk, mv));
    var slave := Join(Pair(k, v));
    var master := Join(Pair(mk, mv));
    var d := new RestrictedDict(10);
    var r1 := d.Unrestrict(None, Some(master));
    var r2 := d.Unrestrict(Some(slave), None);
    var r3 := d.Unrestrict(Some(noSeparator), Some(master));
    var r4 := d.Unrestrict(Some(slave), Some(noSeparator));
    var r5 := d.Unrestrict(Some(slave), Some(master));
    rcs := [r1, r2, r3, r4, r5];
    finalIndex := d.index;
  }

  /**
   * test_unrestrict, cases 6 and 7: after restricting (k, v) against
   * (mk, m1), removing it for another slave value or another master value
   * is refused, and the index keeps the restriction.
   */
  method UnrestrictMismatch(k: string, v: string, other: string, mk: string, m1: string, m2: string)
    returns (restricted: int, wrongSlave: int, wrongMaster: int, finalIndex: seq<Parent>)
    requires Part(k) && Part(v) && Part(other) && v != other
    requires Part(mk) && m1 != [] && m2 != [] && m1 != m2
    ensures restricted == Ok && wrongSlave == Fail && wrongMaster == Fail
    ensures finalIndex == [Parent(k, v, [Child(mk, m1)])]
  {
    SplitJoin(Pair(k, v)); ValidJoinIff(Pair(k, v));
    SplitJoin(Pair(k, other)); ValidJoinIff(Pair(k, other));
    SplitJoin(Pair(mk, m1)); ValidJoinIff(Pair(mk, m1));
    SplitJoin(Pair(mk, m2)); ValidJoinIff(Pair(mk, m2));
    RestrictEmpty(Pair(k, v), Pair(mk, m1));
    var d := new RestrictedDict(10);
    restricted := d.Restrict(Some(Join(Pair(k, v))), Some(Join(Pair(mk, m1))));
    assert Masters(d.index, k, other) == [];
    wrongSlave := d.Unrestrict(Some(Join(Pair(k, other))), Some(Join(Pair(mk, m1))));
    assert Masters(d.index, k, v) == [Child(mk, m1)];
    wrongMaster := d.Unrestrict(Some(Join(Pair(k, v))), Some(Join(Pair(mk, m2))));
    finalIndex := d.index;
  }

  /**
   * test_unrestrict, case 8: removing the one restriction just added succeeds
   * and, the record having no entries left, empties the index.
   */
  method RestrictThenUnrestrictCase(k: string, v: string, mk: string, mv: string)
    returns (restricted: int, removed: int, finalIndex: seq<Parent>)
    requires Part(k) && Part(v) && Part(mk) && mv != []
    ensures restricted == Ok && removed == Ok
    ensures finalIndex == []
  {
    SplitJoin(Pair(k, v)); ValidJoinIff(Pair(k, v));
    SplitJoin(Pair(mk, mv)); ValidJoinIff(Pair(mk, mv));
    RestrictThenUnrestrict([], Join(Pair(k, v)), Join(Pair(mk, mv)));
    var d := new RestrictedDict(10);
    restricted := d.Restrict(Some(Join(Pair(k, v))), Some(Join(Pair(mk, mv))));
    removed := d.Unrestrict(Some(Join(Pair(k, v))), Some(Join(Pair(mk, mv))));
    finalIndex := d.index;
  }

  /**
   * test_multiRestrict, cases 1 to 4: a NULL slave, a NULL array, an invalid
   * slave or a zero count is refused before any record is made.
   */
  method MultiRestrictRefusals(k: string, v: string, masters: seq<string>, noSeparator: string)
    returns (rcs: seq<int>, finalIndex: seq<Parent>)
    requires Part(k) && Part(v) && Separator !in noSeparator && 2 <= |masters|
    ensures rcs == [Fail, Fail, Fail, Fail]
    ensures finalIndex == []
  {
    SplitJoin(Pair(k, v)); ValidJoinIff(Pair(k, v));
    var slave := Join(Pair(k, v));
    var d := new RestrictedDict(10);
    var r1 := d.MultiRestrict(None, Some(masters), 2);
    var r2 := d.MultiRestrict(Some(slave), None, 2);
    var r3 := d.MultiRestrict(Some(noSeparator), Some(masters), 2);
    var r4 := d.MultiRestrict(Some(slave), Some(masters), 0);
    rcs := [r1, r2, r3, r4];
    finalIndex := d.index;
  }

  /**
   * test_multiRestrict, case 5: a batch of two empty texts fails, and the
   * record made for the slave before the loop stays, empty.
   */
  method MultiRestrictEmptyTexts(k: string, v: string)
    returns (rc: int, finalIndex: seq<Parent>)
    requires Part(k) && Part(v)
    ensures rc == Fail
    ensures finalIndex == [Parent(k, v, [])]
  {
    SplitJoin(Pair(k, v)); ValidJoinIff(Pair(k, v));
    var slave := Join(Pair(k, v));
    assert !IsValidPair("");
    MultiRestrictAllInvalid([], slave, ["", ""], 2);
    var d := new RestrictedDict(10);
    rc := d.MultiRestrict(Some(slave), Some(["", ""]), 2);
    finalIndex := d.index;
  }

  /** test_multiRestrict, case 6: a batch of one valid master succeeds and registers it. */
  method MultiRestrictOne(k: string, v: string, mk: string, mv: string)
    returns (rc: int, finalIndex: seq<Parent>)
    requires Part(k) && Part(v) && Part(mk) && mv != []
    ensures rc == Ok
    ensures finalIndex == [Parent(k, v, [Child(mk, mv)])]
  {
    SplitJoin(Pair(k, v)); ValidJoinIff(Pair(k, v));
    SplitJoin(Pair(mk, mv)); ValidJoinIff(Pair(mk, mv));
    var slave := Join(Pair(k, v));
    var master := Join(Pair(mk, mv));
    MultiRestrictSingle([], Some(slave), master);
    RestrictEmpty(Pair(k, v), Pair(mk, mv));
    var d := new RestrictedDict(10);
    rc := d.MultiRestrict(Some(slave), Some([master]), 1);
    finalIndex := d.index;
  }

  /**
   * test_multiRestrict, case 7: with an invalid master in the batch the call
   * fails, yet the valid one before it is registered all the same.
   */
  method MultiRestrictPartial(k: string, v: string, mk: string, mv: string, noSeparator: string)
    returns (rc: int, masters: seq<Child>)
    requires Part(k) && Part(v) && Part(mk) && mv != [] && Separator !in noSeparator
    ensures rc == Fail
    ensures Child(mk, mv) in masters
  {
    SplitJoin(Pair(k, v)); ValidJoinIff(Pair(k, v));
    SplitJoin(Pair(mk, mv)); ValidJoinIff(Pair(mk, mv));
    var slave := Join(Pair(k, v));
    var batch := [Join(Pair(mk, mv)), noSeparator];
    FirstOfTwoRegisters(Pair(k, v), Pair(mk, mv), noSeparator);
    var d := new RestrictedDict(10);
    rc := d.MultiRestrict(Some(slave), Some(batch), 2);
    masters := Masters(d.index, k, v);
  }

  /**
   * test_multiRestrict, case 8: with two valid masters of different keys the
   * call succeeds and both are registered.
   */
  method MultiRestrictAll(k: string, v: string, mk1: string, mv1: string, mk2: string, mv2: string)
    returns (rc: int, masters: seq<Child>)
    requires Part(k) && Part(v) && Part(mk1) && mv1 != [] && Part(mk2) && mv2 != [] && mk1 != mk2
    ensures rc == Ok
    ensures Child(mk1, mv1) in masters && Child(mk2, mv2) in masters
  {
    var slave := Join(Pair(k, v));
    var batch := [Join(Pair(mk1, mv1)), Join(Pair(mk2, mv2))];
    var d := new RestrictedDict(10);
    rc := d.MultiRestrict(Some(slave), Some(batch), 2);
    masters := Masters(d.index, k, v);
    assert rc == Ok && Child(mk1, mv1) in masters && Child(mk2, mv2) in masters by {
      BothOfTwoRegister(Pair(k, v), Pair(mk1, mv1), Pair(mk2, mv2));
    }
  }

  /** A batch of two valid masters with different keys succeeds and registers both. */
  lemma BothOfTwoRegister(s: Pair, m1: Pair, m2: Pair)
    requires Part(s.key) && s.value != [] && Part(m1.key) && m1.value != []
    requires Part(m2.key) && m2.value != [] && m1.key != m2.key
    ensures var r := MultiRestrictStep([], Some(Join(s)), Some([Join(m1), Join(m2)]), 2);
      r.rc == Ok &&
      Child(m1.key, m1.value) in Masters(r.index, s.key, s.value) &&
      Child(m2.key, m2.value) in Masters(r.index, s.key, s.value)
  {
    var batch := [Join(m1), Join(m2)];
    assert MultiRestrictStep([], Some(Join(s)), Some(batch), 2).rc == Ok by {
      ValidJoinIff(s); ValidJoinIff(m1); ValidJoinIff(m2);
      assert batch[..2] == batch;
      assert AllValid(batch[..2]);
    }
    assert IsValidPair(Join(m2)) ==> SplitPair(Join(m2)).value.key != m1.key by {
      SplitJoin(m2);
    }
    FirstOfTwoRegisters(s, m1, Join(m2));
    SecondOfTwoRegisters(s, Join(m1), m2);
  }

  /** In a batch of two, the first master is registered unless the second has its key. */
  lemma FirstOfTwoRegisters(s: Pair, m: Pair, second: string)
    requires Part(s.key) && s.value != [] && Part(m.key) && m.value != []
    requires IsValidPair(second) ==> SplitPair(second).value.key != m.key
    ensures Child(m.key, m.value) in
      Masters(MultiRestrictStep([], Some(Join(s)), Some([Join(m), second]), 2).index, s.key, s.value)
  {
    var batch := [Join(m), second];
    SplitJoin(s);
    SplitJoin(m);
    ValidJoinIff(m);
    ValidJoinIff(s);
    assert batch[..2] == batch;
    assert !OverriddenLater(batch, 0, m.key);
    MultiRestrictRegisters([], Join(s), batch, 2, 0);
  }

  /** In a batch of two, a valid second master is registered. */
  lemma SecondOfTwoRegisters(s: Pair, first: string, m: Pair)
    requires Part(s.key) && s.value != [] && Part(m.key) && m.value != []
    ensures Child(m.key, m.value) in
      Masters(MultiRestrictStep([], Some(Join(s)), Some([first, Join(m)]), 2).index, s.key, s.value)
  {
    var batch := [first, Join(m)];
    SplitJoin(s);
    SplitJoin(m);
    ValidJoinIff(m);
    ValidJoinIff(s);
    assert batch[..2] == batch;
    assert !OverriddenLater(batch, 1, m.key);
    MultiRestrictRegisters([], Join(s), batch, 2, 1);
  }

  /**
   * The sentinel: a master whose value is the text "NULL" never vetoes, even
   * once the store holds "NULL" for its key.
   */
  method SentinelNeverVetoes(k: string, v: string, mk: string)
    returns (restricted: int, masterSet: int, slaveSet: int)
    requires Part(k) && Part(v) && Separator !in mk
    ensures restricted == Ok && masterSet == Ok && slaveSet == Ok
  {
    var d := new RestrictedDict(10);
    restricted := d.Restrict(Some(Join(Pair(k, v))), Some(Join(Pair(mk, Absent))));
    assert restricted == Ok && !Vetoed(d.base, d.index, mk, Absent) &&
           !Vetoed(d.base[mk := Absent], d.index, k, v) by {
      SentinelCase(k, v, mk);
    }
    masterSet := d.Set(Some(mk), Some(Absent));
    slaveSet := d.Set(Some(k), Some(v));
  }

  /** The store and the index of the sentinel case, after each of its calls. */
  lemma SentinelCase(k: string, v: string, mk: string)
    requires Part(k) && Part(v) && Separator !in mk
    ensures var r := RestrictStep([], Some(Join(Pair(k, v))), Some(Join(Pair(mk, Absent))));
      r.rc == Ok && !Vetoed(map[], r.index, mk, Absent) &&
      !Vetoed(map[mk := Absent], r.index, k, v)
  {
    RestrictEmpty(Pair(k, v), Pair(mk, Absent));
    var ps := [Parent(k, v, [Child(mk, Absent)])];
    SentinelMastersNeverVeto(map[], ps, mk, Absent);
    FindParentUnique(ps, 0, k, v);
    SentinelMastersNeverVeto(map[mk := Absent], ps, k, v);
  }

  /** A "k=" master is registered, and unrestrict refuses the text that names it. */
  lemma LooseMasterStays(s: Pair, mk: string)
    requires Part(s.key) && s.value != [] && Part(mk)
    ensures var one := [Parent(s.key, s.value, [Child(mk, [])])];
      RestrictStep([], Some(Join(s)), Some(Join(Pair(mk, [])))) == Step(one, Ok) &&
      UnrestrictStep(one, Some(Join(s)), Some(Join(Pair(mk, [])))) == Step(one, Fail)
  {
    RestrictEmpty(s, Pair(mk, []));
    ValidJoinIff(Pair(mk, []));
  }

  /** Overwriting the "k=" master with "k=v" makes it removable: unrestrict then empties the index. */
  lemma LooseMasterOverwritten(s: Pair, mk: string, mv: string)
    requires Part(s.key) && s.value != [] && Part(mk) && mv != []
    ensures var two := [Parent(s.key, s.value, [Child(mk, mv)])];
      RestrictStep([Parent(s.key, s.value, [Child(mk, [])])], Some(Join(s)), Some(Join(Pair(mk, mv)))) ==
        Step(two, Ok) &&
      UnrestrictStep(two, Some(Join(s)), Some(Join(Pair(mk, mv)))) == Step([], Ok)
  {
    RestrictOverwrite(s, mk, [], mv);
    ValidJoinIff(s); ValidJoinIff(Pair(mk, mv));
    RestrictEmpty(s, Pair(mk, mv));
    RestrictThenUnrestrict([], Join(s), Join(Pair(mk, mv)));
  }

  /**
   * A "k=" master cannot be unrestricted, yet a later restrict with key k
   * overwrites it, and the master that replaces it can be unrestricted again.
   */
  lemma LooseMasterReplaced(s: Pair, mk: string, mv: string)
    requires Part(s.key) && s.value != [] && Part(mk) && mv != []
    ensures var loose := Join(Pair(mk, []));
      var m := Join(Pair(mk, mv));
      var r1 := RestrictStep([], Some(Join(s)), Some(loose));
      var r2 := RestrictStep(r1.index, Some(Join(s)), Some(m));
      r1.rc == Ok && UnrestrictStep(r1.index, Some(Join(s)), Some(loose)).rc == Fail &&
      r2.rc == Ok && UnrestrictStep(r2.index, Some(Join(s)), Some(m)) == Step([], Ok)
  {
    LooseMasterStays(s, mk);
    LooseMasterOverwritten(s, mk, mv);
  }

  /** restrict looks for '=' in the master only: "=x" and "k=" are accepted. */
  method LooseMasters(k: string, v: string, mk: string, x: string)
    returns (emptyKey: int, emptyValue: int)
    requires Part(k) && Part(v)
    ensures emptyKey == Ok && emptyValue == Ok
  {
    SplitJoin(Pair(k, v)); ValidJoinIff(Pair(k, v));
    var slave := Join(Pair(k, v));
    var d := new RestrictedDict(10);
    assert Separator in [Separator] + x;
    emptyKey := d.Restrict(Some(slave), Some([Separator] + x));
    assert Separator in mk + [Separator];
    emptyValue := d.Restrict(Some(slave), Some(mk + [Separator]));
  }
}
