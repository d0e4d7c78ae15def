/**
 * What restrict, multiRestrict and unrestrict do to the restriction index,
 * and through it to the vetoes `set` consults, stated over the step
 * functions of module RestrictedDictionary.
 */
module RestrictionProperties {
  import opened Wrappers
  import opened Pairs
  import opened HierarchyList
  import opened RestrictedDictionary

  /** The masters of one record never repeat a key. */
  lemma MastersDistinct(ps: seq<Parent>, k: string, v: string)
    requires IndexInvariant(ps)
    ensures DistinctKeys(Masters(ps, k, v))
  {
  }

  /** A key is present exactly when some entry carries it. */
  lemma HasKeyIff(cs: seq<Child>, k: string)
    ensures HasKey(cs, k) <==> exists c :: c in cs && c.key == k
  {
    if exists c :: c in cs && c.key == k {
      var c :| c in cs && c.key == k;
      var j :| 0 <= j < |cs| && cs[j] == c;
      assert cs[j].key == k;
    }
  }

  /**
   * An update that changes only the record at position i (of pair (sk, sv))
   * or appends that record leaves the masters of every other pair alone.
   */
  lemma OtherMastersUnchanged(ps: seq<Parent>, ps': seq<Parent>, i: nat,
                              sk: string, sv: string, k: string, v: string)
    requires DistinctParents(ps) && DistinctParents(ps')
    requires i < |ps'| && IsParent(ps'[i], sk, sv) && (i < |ps| ==> IsParent(ps[i], sk, sv))
    requires |ps'| == |ps| || (|ps'| == |ps| + 1 && i == |ps|)
    requires forall t :: 0 <= t < |ps| && t != i ==> ps'[t] == ps[t]
    requires !(k == sk && v == sv)
    ensures Masters(ps', k, v) == Masters(ps, k, v)
  {
    match FindParent(ps, k, v)
    case Some(t) =>
      assert t != i;
      assert ps'[t] == ps[t];
      FindParentUnique(ps', t, k, v);
    case None =>
      forall t | 0 <= t < |ps'| ensures !IsParent(ps'[t], k, v) {
        if t != i {
          assert t < |ps|;
          assert ps'[t] == ps[t];
        }
      }
  }

  /** restrict changes the masters of the slave pair by one upsert, and no other's. */
  lemma {:induction false} RestrictMasters(ps: seq<Parent>, slavePair: string, masterPair: string,
                                           k: string, v: string)
    requires IndexInvariant(ps) && IsValidPair(slavePair) && Separator in masterPair
    ensures var s := SplitPair(slavePair).value;
      var m := SplitPair(masterPair).value;
      Masters(RestrictStep(ps, Some(slavePair), Some(masterPair)).index, k, v) ==
        if k == s.key && v == s.value then SetChild(Masters(ps, k, v), m.key, m.value)
        else Masters(ps, k, v)
  {
    var s := SplitPair(slavePair).value;
    var (ps1, i) := SetParent(ps, s.key, s.value);
    var ps2 := RestrictStep(ps, Some(slavePair), Some(masterPair)).index;
    assert IsParent(ps2[i], s.key, s.value);
    if k == s.key && v == s.value {
      FindParentUnique(ps2, i, k, v);
    } else {
      OtherMastersUnchanged(ps, ps2, i, s.key, s.value, k, v);
    }
  }

  /** restrict on the texts of a new slave pair and a master: one record with one entry is appended. */
  lemma {:induction false} RestrictNewSlave(ps: seq<Parent>, s: Pair, m: Pair)
    requires s.key != [] && s.value != [] && Separator !in s.key && Separator !in m.key
    requires FindParent(ps, s.key, s.value).None?
    ensures RestrictStep(ps, Some(Join(s)), Some(Join(m))) ==
            Step(ps + [Parent(s.key, s.value, [Child(m.key, m.value)])], Ok)
  {
    SplitJoin(s);
    SplitJoin(m);
    ValidJoinIff(s);
    var ps1 := ps + [Parent(s.key, s.value, [])];
    assert SplitAndSetParent(ps, Join(s)) == Some((ps1, |ps|));
    assert SetChild([], m.key, m.value) == [Child(m.key, m.value)];
    var ps2 := ps1[|ps| := Parent(s.key, s.value, [Child(m.key, m.value)])];
    assert AddRestriction(ps1, |ps|, Join(m)) == Some(ps2);
    assert ps2 == ps + [Parent(s.key, s.value, [Child(m.key, m.value)])];
  }

  /** restrict on the texts of a slave pair with a record at position i and a master: one upsert. */
  lemma {:induction false} RestrictKnownSlave(ps: seq<Parent>, i: nat, s: Pair, m: Pair)
    requires s.key != [] && s.value != [] && Separator !in s.key && Separator !in m.key
    requires FindParent(ps, s.key, s.value) == Some(i)
    ensures RestrictStep(ps, Some(Join(s)), Some(Join(m))) ==
            Step(ps[i := ps[i].(children := SetChild(ps[i].children, m.key, m.value))], Ok)
  {
    SplitJoin(s);
    SplitJoin(m);
    ValidJoinIff(s);
  }

  /**
   * After restrict, the slave pair is vetoed exactly when the new master
   * holds or an earlier master with another key holds; the earlier entry for
   * the same master key, if any, was overwritten.
   */
  lemma {:induction false} RestrictVetoedIff(base: map<string, string>, ps: seq<Parent>,
                                             slavePair: string, masterPair: string)
    requires IndexInvariant(ps) && IsValidPair(slavePair) && Separator in masterPair
    ensures var s := SplitPair(slavePair).value;
      var m := SplitPair(masterPair).value;
      Vetoed(base, RestrictStep(ps, Some(slavePair), Some(masterPair)).index, s.key, s.value) <==>
        Holds(base, Child(m.key, m.value)) ||
        exists c :: c in Masters(ps, s.key, s.value) && c.key != m.key && Holds(base, c)
  {
    var s := SplitPair(slavePair).value;
    var m := SplitPair(masterPair).value;
    var ps' := RestrictStep(ps, Some(slavePair), Some(masterPair)).index;
    var before := Masters(ps, s.key, s.value);
    var after := Masters(ps', s.key, s.value);
    RestrictMasters(ps, slavePair, masterPair, s.key, s.value);
    assert after == SetChild(before, m.key, m.value);
    MastersDistinct(ps, s.key, s.value);
    VetoedByMasters(base, ps', s.key, s.value);
    if exists c :: c in after && Holds(base, c) {
      var c :| c in after && Holds(base, c);
      assert c == Child(m.key, m.value) || (c in before && c.key != m.key);
    }
    if exists c :: c in before && c.key != m.key && Holds(base, c) {
      var c :| c in before && c.key != m.key && Holds(base, c);
      assert c in after;
    }
  }

  /**
   * What restrict is for: restrict (k, v) against (mk, mv),
   * then let the store hold mk = mv (any value but the sentinel), and (k, v)
   * is vetoed.
   */
  lemma RestrictThenSetVetoes(base: map<string, string>, ps: seq<Parent>,
                              slavePair: string, masterPair: string)
    requires IndexInvariant(ps) && IsValidPair(slavePair) && Separator in masterPair
    requires SplitPair(masterPair).value.value != Absent
    ensures var s := SplitPair(slavePair).value;
      var m := SplitPair(masterPair).value;
      Vetoed(base[m.key := m.value], RestrictStep(ps, Some(slavePair), Some(masterPair)).index,
             s.key, s.value)
  {
    var m := SplitPair(masterPair).value;
    RestrictVetoedIff(base[m.key := m.value], ps, slavePair, masterPair);
  }

  /**
   * The sentinel: a master whose value is the text "NULL" never vetoes, since
   * a stored "NULL" reads as unset. A record whose masters all have that
   * value never blocks its pair, whatever the store holds.
   */
  lemma SentinelMastersNeverVeto(base: map<string, string>, ps: seq<Parent>, k: string, v: string)
    requires DistinctParents(ps)
    requires forall c :: c in Masters(ps, k, v) ==> c.value == Absent
    ensures !Vetoed(base, ps, k, v)
  {
    VetoedByMasters(base, ps, k, v);
  }

  /** restrict never changes whether another pair is vetoed. */
  lemma RestrictLeavesOtherPairs(base: map<string, string>, ps: seq<Parent>,
                                 slavePair: string, masterPair: string, k: string, v: string)
    requires IndexInvariant(ps) && IsValidPair(slavePair) && Separator in masterPair
    requires var s := SplitPair(slavePair).value; !(k == s.key && v == s.value)
    ensures Vetoed(base, RestrictStep(ps, Some(slavePair), Some(masterPair)).index, k, v) ==
            Vetoed(base, ps, k, v)
  {
    var ps' := RestrictStep(ps, Some(slavePair), Some(masterPair)).index;
    RestrictMasters(ps, slavePair, masterPair, k, v);
    VetoedByMasters(base, ps', k, v);
    VetoedByMasters(base, ps, k, v);
  }

  /** Restricting twice with the same pairs is restricting once. */
  lemma {:induction false} RestrictIdempotent(ps: seq<Parent>, slavePair: Option<string>,
                                              masterPair: Option<string>)
    requires IndexInvariant(ps)
    ensures var once := RestrictStep(ps, slavePair, masterPair);
      RestrictStep(once.index, slavePair, masterPair) == once
  {
    var once := RestrictStep(ps, slavePair, masterPair);
    if slavePair.None? || masterPair.None? || !IsValidPair(slavePair.value) {
      return;
    }
    var s := SplitPair(slavePair.value).value;
    var (ps1, i) := SetParent(ps, s.key, s.value);
    assert IsParent(once.index[i], s.key, s.value);
    FindParentUnique(once.index, i, s.key, s.value);
    if Separator in masterPair.value {
      var m := SplitPair(masterPair.value).value;
      var cs := once.index[i].children;
      assert DistinctKeys(ps1[i].children);
      assert Child(m.key, m.value) in cs;
      var j := FindKey(cs, m.key).value;
      assert cs[j] == Child(m.key, m.value);
      assert cs[j := Child(m.key, m.value)] == cs;
      assert once.index[i := once.index[i].(children := cs)] == once.index;
    }
  }

  /**
   * restrict gets-or-creates the slave record before it splits the master:
   * a master without '=' fails but leaves the record in place.
   */
  lemma RestrictBadMasterKeepsRecord(ps: seq<Parent>, slavePair: string, masterPair: string)
    requires IsValidPair(slavePair) && Separator !in masterPair
    ensures var r := RestrictStep(ps, Some(slavePair), Some(masterPair));
      var s := SplitPair(slavePair).value;
      r.rc == Fail && FindParent(r.index, s.key, s.value).Some? &&
      Masters(r.index, s.key, s.value) == Masters(ps, s.key, s.value)
  {
    var s := SplitPair(slavePair).value;
    var (ps1, i) := SetParent(ps, s.key, s.value);
    if FindParent(ps, s.key, s.value).None? {
      assert ps1[..|ps|] == ps;
      assert FindParent(ps1, s.key, s.value).Some?;
    }
  }

  /** Dropping the record at position i keeps the records distinct. */
  lemma DropRecordDistinct(ps: seq<Parent>, i: nat)
    requires DistinctParents(ps) && i < |ps|
    ensures DistinctParents(ps[..i] + ps[i + 1..])
  {
    var ps' := ps[..i] + ps[i + 1..];
    forall a, b | 0 <= a < b < |ps'|
      ensures !IsParent(ps'[b], ps'[a].key, ps'[a].value)
    {
      assert ps'[a] == ps[if a < i then a else a + 1];
      assert ps'[b] == ps[if b < i then b else b + 1];
    }
  }

  /** Dropping the record at position i leaves the masters of every other pair alone. */
  lemma DropRecordKeepsOthers(ps: seq<Parent>, i: nat, k: string, v: string)
    requires DistinctParents(ps) && i < |ps| && !IsParent(ps[i], k, v)
    ensures Masters(ps[..i] + ps[i + 1..], k, v) == Masters(ps, k, v)
  {
    var ps' := ps[..i] + ps[i + 1..];
    match FindParent(ps, k, v)
    case Some(t) =>
      var t' := if t < i then t else t - 1;
      assert ps'[t'] == ps[t];
      DropRecordDistinct(ps, i);
      FindParentUnique(ps', t', k, v);
    case None =>
      forall t | 0 <= t < |ps'| ensures !IsParent(ps'[t], k, v) {
        assert ps'[t] == ps[if t < i then t else t + 1];
      }
  }

  /** The removal leaves the record at position i with its entry for masterKey gone. */
  lemma {:induction false} RemoveRestrictionOwn(ps: seq<Parent>, i: nat, masterKey: string)
    requires IndexInvariant(ps) && i < |ps|
    ensures Masters(RemoveRestriction(ps, i, masterKey), ps[i].key, ps[i].value) ==
            UnsetChild(Masters(ps, ps[i].key, ps[i].value), masterKey)
  {
    var k, v := ps[i].key, ps[i].value;
    var ps1 := ps[i := ps[i].(children := UnsetChild(ps[i].children, masterKey))];
    FindParentUnique(ps, i, k, v);
    UnsetChildKeepsInvariant(ps, i, masterKey);
    FindParentUnique(ps1, i, k, v);
  }

  /** The removal at position i leaves the masters of every other pair alone. */
  lemma {:induction false} RemoveRestrictionOthers(ps: seq<Parent>, i: nat, masterKey: string,
                                                   k: string, v: string)
    requires IndexInvariant(ps) && i < |ps| && !IsParent(ps[i], k, v)
    ensures Masters(RemoveRestriction(ps, i, masterKey), k, v) == Masters(ps, k, v)
  {
    var ps1 := ps[i := ps[i].(children := UnsetChild(ps[i].children, masterKey))];
    UnsetChildKeepsInvariant(ps, i, masterKey);
    OtherMastersUnchanged(ps, ps1, i, ps[i].key, ps[i].value, k, v);
    if NumChildren(ps1[i]) == 0 {
      FindParentUnique(ps1, i, ps[i].key, ps[i].value);
      DropRecordKeepsOthers(ps1, i, k, v);
    }
  }

  /** unrestrict removes the entry of the master key from the slave's record, and nothing else. */
  lemma {:induction false} UnrestrictMasters(ps: seq<Parent>, slavePair: string, masterPair: string,
                                             k: string, v: string)
    requires IndexInvariant(ps)
    requires UnrestrictStep(ps, Some(slavePair), Some(masterPair)).rc == Ok
    ensures var s := SplitPair(slavePair).value;
      var m := SplitPair(masterPair).value;
      Masters(UnrestrictStep(ps, Some(slavePair), Some(masterPair)).index, k, v) ==
        if k == s.key && v == s.value then UnsetChild(Masters(ps, k, v), m.key)
        else Masters(ps, k, v)
  {
    var s := SplitPair(slavePair).value;
    var m := SplitPair(masterPair).value;
    var i := FindParent(ps, s.key, s.value).value;
    assert UnrestrictStep(ps, Some(slavePair), Some(masterPair)).index == RemoveRestriction(ps, i, m.key);
    if k == s.key && v == s.value {
      RemoveRestrictionOwn(ps, i, m.key);
    } else {
      RemoveRestrictionOthers(ps, i, m.key, k, v);
    }
  }

  /**
   * unrestrict can never name a master with an empty key, such as the one
   * restrict registers for "=x": is_valid_pair refuses every text that would
   * name it, so the entry survives every unrestrict.
   */
  lemma UnrestrictKeepsEmptyKeys(ps: seq<Parent>, slavePair: Option<string>, masterPair: Option<string>,
                                 k: string, v: string, c: Child)
    requires IndexInvariant(ps) && c in Masters(ps, k, v) && c.key == []
    ensures c in Masters(UnrestrictStep(ps, slavePair, masterPair).index, k, v)
  {
    if UnrestrictStep(ps, slavePair, masterPair).rc == Ok {
      ValidPairIff(masterPair.value);
      UnrestrictMasters(ps, slavePair.value, masterPair.value, k, v);
    }
  }

  /**
   * A successful unrestrict removes the slave record exactly when the master
   * was its last entry; every other record stays.
   */
  lemma {:induction false} UnrestrictPrunes(ps: seq<Parent>, slavePair: string, masterPair: string)
    requires IndexInvariant(ps)
    requires UnrestrictStep(ps, Some(slavePair), Some(masterPair)).rc == Ok
    ensures var s := SplitPair(slavePair).value;
      var ps' := UnrestrictStep(ps, Some(slavePair), Some(masterPair)).index;
      (FindParent(ps', s.key, s.value).None? <==> |Masters(ps, s.key, s.value)| == 1) &&
      |ps'| == if |Masters(ps, s.key, s.value)| == 1 then |ps| - 1 else |ps|
  {
    var s := SplitPair(slavePair).value;
    var m := SplitPair(masterPair).value;
    var i := FindParent(ps, s.key, s.value).value;
    var cs := ps[i].children;
    assert Child(m.key, m.value) in cs;
    HasKeyIff(cs, m.key);
    var ps1 := ps[i := ps[i].(children := UnsetChild(cs, m.key))];
    UnsetChildKeepsInvariant(ps, i, m.key);
    FindParentUnique(ps1, i, s.key, s.value);
    if NumChildren(ps1[i]) != 0 {
      FindParentUnique(UnrestrictStep(ps, Some(slavePair), Some(masterPair)).index, i, s.key, s.value);
    }
  }

  /**
   * After unrestrict the removed master key no longer vetoes the slave pair:
   * it is vetoed exactly when one of its other masters holds.
   */
  lemma UnrestrictVetoedIff(base: map<string, string>, ps: seq<Parent>,
                            slavePair: string, masterPair: string)
    requires IndexInvariant(ps)
    requires UnrestrictStep(ps, Some(slavePair), Some(masterPair)).rc == Ok
    ensures var s := SplitPair(slavePair).value;
      var m := SplitPair(masterPair).value;
      var ps' := UnrestrictStep(ps, Some(slavePair), Some(masterPair)).index;
      !HasKey(Masters(ps', s.key, s.value), m.key) &&
      (Vetoed(base, ps', s.key, s.value) <==>
        exists c :: c in Masters(ps, s.key, s.value) && c.key != m.key && Holds(base, c))
  {
    var s := SplitPair(slavePair).value;
    var ps' := UnrestrictStep(ps, Some(slavePair), Some(masterPair)).index;
    UnrestrictMasters(ps, slavePair, masterPair, s.key, s.value);
    MastersDistinct(ps, s.key, s.value);
    VetoedByMasters(base, ps', s.key, s.value);
  }

  /**
   * Removal symmetry: restrict followed by unrestrict of a master key the
   * record did not have gives the index back, provided the record, if it
   * existed, had entries (an empty record would be pruned).
   */
  lemma {:induction false} RestrictThenUnrestrict(ps: seq<Parent>, slavePair: string, masterPair: string)
    requires IndexInvariant(ps) && IsValidPair(slavePair) && IsValidPair(masterPair)
    requires var s := SplitPair(slavePair).value;
      var m := SplitPair(masterPair).value;
      FindParent(ps, s.key, s.value).None? ||
      (Masters(ps, s.key, s.value) != [] && !HasKey(Masters(ps, s.key, s.value), m.key))
    ensures var once := RestrictStep(ps, Some(slavePair), Some(masterPair));
      once.rc == Ok && UnrestrictStep(once.index, Some(slavePair), Some(masterPair)) == Step(ps, Ok)
  {
    var s := SplitPair(slavePair).value;
    var m := SplitPair(masterPair).value;
    var (ps1, i) := SetParent(ps, s.key, s.value);
    var ps2 := RestrictStep(ps, Some(slavePair), Some(masterPair)).index;
    assert IsParent(ps2[i], s.key, s.value);
    FindParentUnique(ps2, i, s.key, s.value);
    var cs := ps1[i].children;
    assert !HasKey(cs, m.key);
    UnsetChildAppended(cs, m.key, m.value);
    var ps3 := ps2[i := ps2[i].(children := UnsetChild(ps2[i].children, m.key))];
    assert ps3 == ps1;
    if FindParent(ps, s.key, s.value).None? {
      FindParentUnique(ps3, i, s.key, s.value);
      assert UnsetParent(ps3, s.key, s.value) == ps;
    } else {
      assert ps1 == ps;
    }
  }

  /** Removing a record without entries changes no veto. */
  lemma DropEmptyRecordKeepsVetoes(base: map<string, string>, ps: seq<Parent>,
                                   sk: string, sv: string, k: string, v: string)
    requires IndexInvariant(ps) && Masters(ps, sk, sv) == []
    ensures Vetoed(base, UnsetParent(ps, sk, sv), k, v) == Vetoed(base, ps, k, v)
  {
    var ps' := UnsetParent(ps, sk, sv);
    UnsetParentKeepsInvariant(ps, sk, sv);
    VetoedByMasters(base, ps, k, v);
    VetoedByMasters(base, ps', k, v);
    if FindParent(ps, sk, sv).Some? && !(k == sk && v == sv) {
      DropRecordKeepsOthers(ps, FindParent(ps, sk, sv).value, k, v);
    }
  }

  /**
   * Removal symmetry for a slave pair whose record existed without entries:
   * restrict followed by unrestrict prunes that record, which vetoed nothing,
   * so every pair is vetoed afterwards exactly when it was before.
   */
  lemma {:induction false} RestrictThenUnrestrictEmptyRecord(base: map<string, string>, ps: seq<Parent>,
                                                             slavePair: string, masterPair: string,
                                                             k: string, v: string)
    requires IndexInvariant(ps) && IsValidPair(slavePair) && IsValidPair(masterPair)
    requires var s := SplitPair(slavePair).value;
      FindParent(ps, s.key, s.value).Some? && Masters(ps, s.key, s.value) == []
    ensures var s := SplitPair(slavePair).value;
      var once := RestrictStep(ps, Some(slavePair), Some(masterPair));
      var twice := UnrestrictStep(once.index, Some(slavePair), Some(masterPair));
      once.rc == Ok && twice == Step(UnsetParent(ps, s.key, s.value), Ok) &&
      (Vetoed(base, twice.index, k, v) <==> Vetoed(base, ps, k, v))
  {
    var s := SplitPair(slavePair).value;
    var m := SplitPair(masterPair).value;
    var i := FindParent(ps, s.key, s.value).value;
    ValidPairIff(slavePair);
    RestrictKnownSlave(ps, i, s, m);
    assert ps[i].children == [];
    var ps2 := RestrictStep(ps, Some(slavePair), Some(masterPair)).index;
    assert ps2 == ps[i := ps[i].(children := [] + [Child(m.key, m.value)])];
    FindParentUnique(ps2, i, s.key, s.value);
    UnsetChildAppended([], m.key, m.value);
    var ps3 := ps2[i := ps2[i].(children := UnsetChild(ps2[i].children, m.key))];
    assert ps3 == ps;
    DropEmptyRecordKeepsVetoes(base, ps, s.key, s.value, k, v);
  }

  /**
   * Where removal symmetry breaks: restricting against a master key the slave
   * already has overwrites the old entry, so the unrestrict that follows
   * removes the key altogether and the former master (mk, former) is lost.
   */
  lemma {:induction false} RestrictThenUnrestrictLosesOverwritten(ps: seq<Parent>, slavePair: string,
                                                                  masterPair: string, former: string)
    requires IndexInvariant(ps) && IsValidPair(slavePair) && IsValidPair(masterPair)
    requires var s := SplitPair(slavePair).value;
      Child(SplitPair(masterPair).value.key, former) in Masters(ps, s.key, s.value)
    ensures var s := SplitPair(slavePair).value;
      var m := SplitPair(masterPair).value;
      var once := RestrictStep(ps, Some(slavePair), Some(masterPair));
      var twice := UnrestrictStep(once.index, Some(slavePair), Some(masterPair));
      once.rc == Ok && twice.rc == Ok &&
      Child(m.key, former) !in Masters(twice.index, s.key, s.value) && twice.index != ps
  {
    var s := SplitPair(slavePair).value;
    var m := SplitPair(masterPair).value;
    var once := RestrictStep(ps, Some(slavePair), Some(masterPair));
    RestrictMasters(ps, slavePair, masterPair, s.key, s.value);
    var cs := Masters(once.index, s.key, s.value);
    assert Child(m.key, m.value) in cs;
    assert Registered(once.index, s, m);
    var twice := UnrestrictStep(once.index, Some(slavePair), Some(masterPair));
    UnrestrictMasters(once.index, slavePair, masterPair, s.key, s.value);
    MastersDistinct(once.index, s.key, s.value);
    HasKeyIff(Masters(twice.index, s.key, s.value), m.key);
  }

  /** A later valid master in the batch with the same key. */
  predicate OverriddenLater(masterPairs: seq<string>, t: nat, key: string) {
    exists u :: t < u < |masterPairs| && IsValidPair(masterPairs[u]) &&
      SplitPair(masterPairs[u]).value.key == key
  }

  /** An upsert never loses a master key, and adds its own. */
  lemma SetChildKeepsKeys(cs: seq<Child>, k: string, v: string, key: string)
    ensures HasKey(cs, key) || key == k ==> HasKey(SetChild(cs, k, v), key)
  {
    var r := SetChild(cs, k, v);
    HasKeyIff(cs, key);
    HasKeyIff(r, key);
    if HasKey(cs, key) && key != k {
      var c :| c in cs && c.key == key;
      assert c in r;
    }
  }

  /**
   * One turn of the multiRestrict loop keeps a registered master key, and
   * keeps its entry unless the turn's master is valid and has that key.
   */
  lemma TurnKeepsRegistered(prev: seq<Child>, cs: seq<Child>, last: string, k: string, v: string)
    requires cs == if IsValidPair(last)
      then SetChild(prev, SplitPair(last).value.key, SplitPair(last).value.value) else prev
    ensures HasKey(prev, k) ==> HasKey(cs, k)
    ensures Child(k, v) in prev && !(IsValidPair(last) && SplitPair(last).value.key == k) ==> Child(k, v) in cs
  {
    if IsValidPair(last) {
      SetChildKeepsKeys(prev, SplitPair(last).value.key, SplitPair(last).value.value, k);
    }
  }

  /** The record's entries after the last turn of the multiRestrict loop. */
  lemma AddAllLastChildren(ps: seq<Parent>, i: nat, masterPairs: seq<string>)
    requires i < |ps| && masterPairs != []
    ensures var n := |masterPairs| - 1;
      var prev := AddAll(ps, i, masterPairs[..n])[i].children;
      var last := masterPairs[n];
      AddAll(ps, i, masterPairs)[i].children ==
        if IsValidPair(last) then SetChild(prev, SplitPair(last).value.key, SplitPair(last).value.value)
        else prev
  {
  }

  /**
   * After the multiRestrict loop, every valid master's key is registered, with
   * the master's own value unless a later valid master overwrote it.
   */
  lemma {:induction false} AddAllRegisters(ps: seq<Parent>, i: nat, masterPairs: seq<string>, t: nat)
    requires i < |ps| && t < |masterPairs| && IsValidPair(masterPairs[t])
    ensures var kv := SplitPair(masterPairs[t]).value;
      var cs := AddAll(ps, i, masterPairs)[i].children;
      HasKey(cs, kv.key) &&
      (!OverriddenLater(masterPairs, t, kv.key) ==> Child(kv.key, kv.value) in cs)
    decreases |masterPairs|
  {
    var kv := SplitPair(masterPairs[t]).value;
    var n := |masterPairs| - 1;
    var pre := masterPairs[..n];
    var prev := AddAll(ps, i, pre)[i].children;
    var last := masterPairs[n];
    var cs := AddAll(ps, i, masterPairs)[i].children;
    if t == n {
      assert HasKey(cs, kv.key) && Child(kv.key, kv.value) in cs by {
        AddAllLastChildren(ps, i, masterPairs);
        SetChildKeepsKeys(prev, kv.key, kv.value, kv.key);
      }
    } else {
      var lastNames := IsValidPair(last) && SplitPair(last).value.key == kv.key;
      assert HasKey(prev, kv.key) &&
        (!OverriddenLater(pre, t, kv.key) ==> Child(kv.key, kv.value) in prev) by {
        assert pre[t] == masterPairs[t];
        AddAllRegisters(ps, i, pre, t);
      }
      assert !OverriddenLater(masterPairs, t, kv.key) ==> !OverriddenLater(pre, t, kv.key) && !lastNames by {
        if OverriddenLater(pre, t, kv.key) {
          var u :| t < u < |pre| && IsValidPair(pre[u]) && SplitPair(pre[u]).value.key == kv.key;
          assert masterPairs[u] == pre[u];
        }
      }
      assert HasKey(cs, kv.key) &&
        (Child(kv.key, kv.value) in prev && !lastNames ==> Child(kv.key, kv.value) in cs) by {
        AddAllLastChildren(ps, i, masterPairs);
        TurnKeepsRegistered(prev, cs, last, kv.key, kv.value);
      }
    }
  }

  /** The entry a valid master of the batch contributes. */
  predicate FromBatch(masterPairs: seq<string>, c: Child) {
    exists t :: 0 <= t < |masterPairs| && IsValidPair(masterPairs[t]) &&
      c == Child(SplitPair(masterPairs[t]).value.key, SplitPair(masterPairs[t]).value.value)
  }

  /**
   * The multiRestrict loop skips the invalid masters: every entry of the
   * record afterwards was there before or comes from a valid master.
   */
  lemma {:induction false} AddAllOnlyValid(ps: seq<Parent>, i: nat, masterPairs: seq<string>)
    requires IndexInvariant(ps) && i < |ps|
    ensures forall c :: c in AddAll(ps, i, masterPairs)[i].children ==>
      c in ps[i].children || FromBatch(masterPairs, c)
    decreases |masterPairs|
  {
    if masterPairs != [] {
      var n := |masterPairs| - 1;
      var pre := masterPairs[..n];
      var prev := AddAll(ps, i, pre);
      var last := masterPairs[n];
      AddAllOnlyValid(ps, i, pre);
      forall c | c in AddAll(ps, i, masterPairs)[i].children
        ensures c in ps[i].children || FromBatch(masterPairs, c)
      {
        if c in prev[i].children {
          if c !in ps[i].children {
            var t :| 0 <= t < |pre| && IsValidPair(pre[t]) &&
              c == Child(SplitPair(pre[t]).value.key, SplitPair(pre[t]).value.value);
            assert masterPairs[t] == pre[t];
          }
        } else {
          var kv := SplitPair(last).value;
          assert IsValidPair(last);
          assert AddAll(ps, i, masterPairs)[i].children == SetChild(prev[i].children, kv.key, kv.value);
          assert c == Child(kv.key, kv.value);
        }
      }
    }
  }

  /** Some valid master of the batch carries the master key. */
  predicate KeyInBatch(masterPairs: seq<string>, key: string) {
    exists t :: 0 <= t < |masterPairs| && IsValidPair(masterPairs[t]) &&
      SplitPair(masterPairs[t]).value.key == key
  }

  /**
   * The multiRestrict loop only adds branches: an entry of the record whose
   * key no valid master of the batch names is still there afterwards.
   */
  lemma {:induction false} AddAllKeepsOthers(ps: seq<Parent>, i: nat, masterPairs: seq<string>, c: Child)
    requires i < |ps| && c in ps[i].children && !KeyInBatch(masterPairs, c.key)
    ensures c in AddAll(ps, i, masterPairs)[i].children
    decreases |masterPairs|
  {
    if masterPairs != [] {
      var n := |masterPairs| - 1;
      var pre := masterPairs[..n];
      assert forall t :: 0 <= t < |pre| ==> pre[t] == masterPairs[t];
      AddAllKeepsOthers(ps, i, pre, c);
      if IsValidPair(masterPairs[n]) {
        assert SplitPair(masterPairs[n]).value.key != c.key;
      }
    }
  }

  /**
   * multiRestrict with a valid slave pair registers every valid master of the
   * batch whatever the others are (the return code reports the invalid ones).
   */
  lemma MultiRestrictRegisters(ps: seq<Parent>, slavePair: string, masterPairs: seq<string>,
                               numMasters: nat, t: nat)
    requires IndexInvariant(ps) && IsValidPair(slavePair)
    requires 0 < numMasters <= |masterPairs| && t < numMasters && IsValidPair(masterPairs[t])
    ensures var r := MultiRestrictStep(ps, Some(slavePair), Some(masterPairs), numMasters);
      var s := SplitPair(slavePair).value;
      var kv := SplitPair(masterPairs[t]).value;
      var cs := Masters(r.index, s.key, s.value);
      HasKey(cs, kv.key) &&
      (!OverriddenLater(masterPairs[..numMasters], t, kv.key) ==> Child(kv.key, kv.value) in cs)
  {
    var s := SplitPair(slavePair).value;
    var (ps1, i) := SetParent(ps, s.key, s.value);
    var ms := masterPairs[..numMasters];
    var r := MultiRestrictStep(ps, Some(slavePair), Some(masterPairs), numMasters);
    assert r.index == AddAll(ps1, i, ms);
    FindParentUnique(r.index, i, s.key, s.value);
    AddAllRegisters(ps1, i, ms, t);
  }

  /**
   * multiRestrict adds to the slave pair's masters only entries of valid
   * masters of the batch: an invalid one such as "=x" is never registered.
   */
  lemma MultiRestrictOnlyValid(ps: seq<Parent>, slavePair: string, masterPairs: seq<string>,
                               numMasters: nat)
    requires IndexInvariant(ps) && IsValidPair(slavePair) && 0 < numMasters <= |masterPairs|
    ensures var r := MultiRestrictStep(ps, Some(slavePair), Some(masterPairs), numMasters);
      var s := SplitPair(slavePair).value;
      forall c :: c in Masters(r.index, s.key, s.value) ==>
        c in Masters(ps, s.key, s.value) || FromBatch(masterPairs[..numMasters], c)
  {
    var s := SplitPair(slavePair).value;
    var (ps1, i) := SetParent(ps, s.key, s.value);
    var ms := masterPairs[..numMasters];
    var r := MultiRestrictStep(ps, Some(slavePair), Some(masterPairs), numMasters);
    assert r.index == AddAll(ps1, i, ms);
    SetParentKeepsInvariant(ps, s.key, s.value);
    FindParentUnique(r.index, i, s.key, s.value);
    AddAllOnlyValid(ps1, i, ms);
    if FindParent(ps, s.key, s.value).None? {
      assert ps1[i].children == [];
    }
  }

  /**
   * multiRestrict adds OR-branches: a master of the slave pair whose key no
   * valid master of the batch names stays registered.
   */
  lemma MultiRestrictKeepsOthers(ps: seq<Parent>, slavePair: string, masterPairs: seq<string>,
                                 numMasters: nat, c: Child)
    requires IndexInvariant(ps) && IsValidPair(slavePair) && 0 < numMasters <= |masterPairs|
    requires var s := SplitPair(slavePair).value; c in Masters(ps, s.key, s.value)
    requires !KeyInBatch(masterPairs[..numMasters], c.key)
    ensures var r := MultiRestrictStep(ps, Some(slavePair), Some(masterPairs), numMasters);
      var s := SplitPair(slavePair).value;
      c in Masters(r.index, s.key, s.value)
  {
    var s := SplitPair(slavePair).value;
    var (ps1, i) := SetParent(ps, s.key, s.value);
    var ms := masterPairs[..numMasters];
    var r := MultiRestrictStep(ps, Some(slavePair), Some(masterPairs), numMasters);
    assert r.index == AddAll(ps1, i, ms);
    assert ps1 == ps;
    FindParentUnique(r.index, i, s.key, s.value);
    AddAllKeepsOthers(ps1, i, ms, c);
  }

  /** multiRestrict touches no record but the slave pair's. */
  lemma MultiRestrictLeavesOthers(ps: seq<Parent>, slavePair: string, masterPairs: seq<string>,
                                  numMasters: nat, k: string, v: string)
    requires IndexInvariant(ps) && IsValidPair(slavePair) && 0 < numMasters <= |masterPairs|
    requires var s := SplitPair(slavePair).value; !(k == s.key && v == s.value)
    ensures Masters(MultiRestrictStep(ps, Some(slavePair), Some(masterPairs), numMasters).index, k, v) ==
            Masters(ps, k, v)
  {
    var s := SplitPair(slavePair).value;
    var (ps1, i) := SetParent(ps, s.key, s.value);
    var r := MultiRestrictStep(ps, Some(slavePair), Some(masterPairs), numMasters);
    OtherMastersUnchanged(ps, r.index, i, s.key, s.value, k, v);
  }

  /** The loop over a batch without a valid master changes nothing. */
  lemma {:induction false} AddAllNoneValid(ps: seq<Parent>, i: nat, masterPairs: seq<string>)
    requires i < |ps| && forall t :: 0 <= t < |masterPairs| ==> !IsValidPair(masterPairs[t])
    ensures AddAll(ps, i, masterPairs) == ps
    decreases |masterPairs|
  {
    if masterPairs != [] {
      var pre := masterPairs[..|masterPairs| - 1];
      assert forall t :: 0 <= t < |pre| ==> pre[t] == masterPairs[t];
      AddAllNoneValid(ps, i, pre);
    }
  }

  /**
   * multiRestrict with only invalid masters for a new slave pair fails and
   * leaves an empty record registered (it is created before the loop).
   */
  lemma MultiRestrictAllInvalid(ps: seq<Parent>, slavePair: string, masterPairs: seq<string>,
                                numMasters: nat)
    requires IndexInvariant(ps) && IsValidPair(slavePair) && 0 < numMasters <= |masterPairs|
    requires forall t :: 0 <= t < numMasters ==> !IsValidPair(masterPairs[t])
    requires var s := SplitPair(slavePair).value; FindParent(ps, s.key, s.value).None?
    ensures var r := MultiRestrictStep(ps, Some(slavePair), Some(masterPairs), numMasters);
      var s := SplitPair(slavePair).value;
      r.rc == Fail && r.index == ps + [Parent(s.key, s.value, [])]
  {
    var s := SplitPair(slavePair).value;
    var (ps1, i) := SetParent(ps, s.key, s.value);
    var ms := masterPairs[..numMasters];
    assert !IsValidPair(ms[0]);
    AddAllNoneValid(ps1, i, ms);
  }

  /** A batch of one valid master is a single restrict. */
  lemma MultiRestrictSingle(ps: seq<Parent>, slavePair: Option<string>, masterPair: string)
    requires IsValidPair(masterPair)
    ensures MultiRestrictStep(ps, slavePair, Some([masterPair]), 1) ==
            RestrictStep(ps, slavePair, Some(masterPair))
  {
    if slavePair.Some? && IsValidPair(slavePair.value) {
      var s := SplitPair(slavePair.value).value;
      var (ps1, i) := SetParent(ps, s.key, s.value);
      assert [masterPair][..1] == [masterPair];
      assert [masterPair][..0] == [];
      assert AddAll(ps1, i, [masterPair]) == AddRestriction(ps1, i, masterPair).value;
    }
  }
}
