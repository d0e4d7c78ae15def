/**
 * The restricted dictionary of restricted_dictionary.c: a key/value store
 * (`base`, standing for dictionary.h) plus a restriction index of slave
 * records. `set(k, v)` is refused while any master entry of the record for
 * (k, v) holds in the store; the masters of one record combine by OR.
 *
 * Each state-changing operation is a method of `RestrictedDict` proved
 * against a step function on the index (`RestrictStep`, `MultiRestrictStep`,
 * `UnrestrictStep`); the properties of those functions are proved in
 * module RestrictionProperties.
 */
module RestrictedDictionary {
  import opened Wrappers
  import opened Pairs
  import opened HierarchyList

  /** The C return codes. */
  const Ok: int := 0
  const Fail: int := -1

  /**
   * The default `has_restriction` passes to `dictionary_get`. It doubles as
   * the "key is unset" sentinel: a stored "NULL" reads as unset too.
   */
  const Absent: string := "NULL"

  /** `dictionary_get(base, k, "NULL")`. */
  function Lookup(base: map<string, string>, k: string): string {
    if k in base then base[k] else Absent
  }

  /**
   * A master entry holds when the value the store gives for its key is not
   * the sentinel and equals the entry's value.
   */
  predicate Holds(base: map<string, string>, c: Child) {
    var current := Lookup(base, c.key);
    current != Absent && current == c.value
  }

  /**
   * What the sentinel means for a master entry: it holds exactly when its key
   * is stored with the entry's value, and an entry valued "NULL" never holds.
   */
  lemma HoldsIff(base: map<string, string>, c: Child)
    ensures Holds(base, c) <==> c.key in base && base[c.key] == c.value && c.value != Absent
  {
  }

  /** The master entries registered for the slave pair (k, v). */
  function Masters(ps: seq<Parent>, k: string, v: string): seq<Child> {
    match FindParent(ps, k, v)
    case None => []
    case Some(i) => ps[i].children
  }

  /** Reference definition: some record for (k, v) has an entry that holds. */
  predicate Vetoed(base: map<string, string>, ps: seq<Parent>, k: string, v: string) {
    exists i, j :: 0 <= i < |ps| && IsParent(ps[i], k, v) &&
      0 <= j < |ps[i].children| && Holds(base, ps[i].children[j])
  }

  /** In a well-formed index, a veto is a registered master that holds. */
  lemma VetoedByMasters(base: map<string, string>, ps: seq<Parent>, k: string, v: string)
    requires DistinctParents(ps)
    ensures Vetoed(base, ps, k, v) <==> exists c :: c in Masters(ps, k, v) && Holds(base, c)
  {
    if Vetoed(base, ps, k, v) {
      var i, j :| 0 <= i < |ps| && IsParent(ps[i], k, v) &&
        0 <= j < |ps[i].children| && Holds(base, ps[i].children[j]);
      FindParentUnique(ps, i, k, v);
      assert ps[i].children[j] in Masters(ps, k, v);
    }
    if exists c :: c in Masters(ps, k, v) && Holds(base, c) {
      var c :| c in Masters(ps, k, v) && Holds(base, c);
      var i := FindParent(ps, k, v).value;
      var j :| 0 <= j < |ps[i].children| && ps[i].children[j] == c;
      assert Holds(base, ps[i].children[j]);
    }
  }

  /**
   * What the restricted dictionary adds to the index's own well-formedness:
   * every record is a valid slave pair and no master key contains '='.
   */
  predicate Shaped(p: Parent) {
    p.key != [] && p.value != [] && Separator !in p.key &&
    forall c :: c in p.children ==> Separator !in c.key
  }

  predicate IndexInvariant(ps: seq<Parent>) {
    WellFormed(ps) && forall i :: 0 <= i < |ps| ==> Shaped(ps[i])
  }

  /**
   * `split_and_set_parent`: refuses a slave text that is not a valid pair;
   * otherwise gets or creates the record for it and gives its position.
   */
  function SplitAndSetParent(ps: seq<Parent>, slavePair: string): (r: Option<(seq<Parent>, nat)>)
    ensures r.None? <==> !IsValidPair(slavePair)
    ensures r.Some? ==>
      r.value.1 < |r.value.0| &&
      Join(Pair(r.value.0[r.value.1].key, r.value.0[r.value.1].value)) == slavePair &&
      |ps| <= |r.value.0| <= |ps| + 1 && r.value.0[..|ps|] == ps &&
      (IndexInvariant(ps) ==> IndexInvariant(r.value.0))
    ensures r.Some? ==>
      var kv := SplitPair(slavePair).value;
      (FindParent(ps, kv.key, kv.value).Some? ==>
         r.value.0 == ps && r.value.1 == FindParent(ps, kv.key, kv.value).value) &&
      (FindParent(ps, kv.key, kv.value).None? ==>
         r.value.0 == ps + [Parent(kv.key, kv.value, [])] && r.value.1 == |ps|)
  {
    if !IsValidPair(slavePair) then None
    else
      var kv := SplitPair(slavePair).value;
      ValidPairIff(slavePair);
      SetParentKeepsInvariant(ps, kv.key, kv.value);
      Some(SetParent(ps, kv.key, kv.value))
  }

  /** A record for a valid slave pair extends the index and keeps it invariant. */
  lemma SetParentKeepsInvariant(ps: seq<Parent>, k: string, v: string)
    requires k != [] && v != [] && Separator !in k
    ensures var ps' := SetParent(ps, k, v).0;
      |ps| <= |ps'| <= |ps| + 1 && ps'[..|ps|] == ps &&
      (IndexInvariant(ps) ==> IndexInvariant(ps'))
  {
    var ps' := SetParent(ps, k, v).0;
    assert ps'[..|ps|] == ps;
  }

  /**
   * `add_restriction`: refuses a master text without '='; otherwise upserts
   * its entry into the record at position i and touches nothing else.
   */
  function AddRestriction(ps: seq<Parent>, i: nat, masterPair: string): (r: Option<seq<Parent>>)
    requires i < |ps|
    ensures r.None? <==> Separator !in masterPair
    ensures r.Some? ==>
      var kv := SplitPair(masterPair).value;
      |r.value| == |ps| && IsParent(r.value[i], ps[i].key, ps[i].value) &&
      HasChild(r.value[i], kv.key, kv.value) &&
      (forall c :: c in ps[i].children && c.key != kv.key ==> c in r.value[i].children) &&
      (forall t :: 0 <= t < |ps| && t != i ==> r.value[t] == ps[t]) &&
      (IndexInvariant(ps) ==> IndexInvariant(r.value))
  {
    match SplitPair(masterPair)
    case None => None
    case Some(kv) =>
      var ps' := ps[i := ps[i].(children := SetChild(ps[i].children, kv.key, kv.value))];
      assert IndexInvariant(ps) ==> IndexInvariant(ps') by {
        if IndexInvariant(ps) {
          forall t, u | 0 <= t < u < |ps'|
            ensures !IsParent(ps'[u], ps'[t].key, ps'[t].value)
          {
            assert !IsParent(ps[u], ps[t].key, ps[t].value);
          }
          assert Shaped(ps'[i]);
        }
      }
      Some(ps')
  }

  /** The index and the return code an operation leaves. */
  datatype Step = Step(index: seq<Parent>, rc: int)

  /** `restricted_dictionary_restrict`; None stands for a NULL argument. */
  function RestrictStep(ps: seq<Parent>, slavePair: Option<string>, masterPair: Option<string>): (r: Step)
    ensures r.rc == Ok || r.rc == Fail
    ensures r.rc == Ok <==>
      slavePair.Some? && masterPair.Some? &&
      IsValidPair(slavePair.value) && Separator in masterPair.value
    ensures slavePair.None? || masterPair.None? || !IsValidPair(slavePair.value) ==> r.index == ps
    ensures IndexInvariant(ps) ==> IndexInvariant(r.index)
  {
    if slavePair.None? || masterPair.None? then Step(ps, Fail)
    else
      match SplitAndSetParent(ps, slavePair.value)
      case None => Step(ps, Fail)
      case Some((ps1, i)) =>
        match AddRestriction(ps1, i, masterPair.value)
        case None => Step(ps1, Fail)
        case Some(ps2) => Step(ps2, Ok)
  }

  predicate AllValid(masterPairs: seq<string>) {
    forall t :: 0 <= t < |masterPairs| ==> IsValidPair(masterPairs[t])
  }

  /**
   * The loop of `restricted_dictionary_multiRestrict` over the record at
   * position i: every valid master is added in turn, invalid ones skipped.
   */
  function AddAll(ps: seq<Parent>, i: nat, masterPairs: seq<string>): (r: seq<Parent>)
    requires i < |ps|
    ensures |r| == |ps| && IsParent(r[i], ps[i].key, ps[i].value)
    ensures forall t :: 0 <= t < |ps| && t != i ==> r[t] == ps[t]
    ensures IndexInvariant(ps) ==> IndexInvariant(r)
    decreases |masterPairs|
  {
    if masterPairs == [] then ps
    else
      var prev := AddAll(ps, i, masterPairs[..|masterPairs| - 1]);
      var m := masterPairs[|masterPairs| - 1];
      if !IsValidPair(m) then prev
      else
        match AddRestriction(prev, i, m)
        case None => prev
        case Some(next) => next
  }

  /** One more turn of the multiRestrict loop, as AddAll and AllValid see it. */
  lemma AddAllNext(ps: seq<Parent>, i: nat, masterPairs: seq<string>, j: nat)
    requires i < |ps| && j < |masterPairs|
    ensures var prev := AddAll(ps, i, masterPairs[..j]);
      AddAll(ps, i, masterPairs[..j + 1]) ==
        if !IsValidPair(masterPairs[j]) then prev
        else AddRestriction(prev, i, masterPairs[j]).value
  {
    var ms := masterPairs[..j + 1];
    assert ms[..|ms| - 1] == masterPairs[..j];
    assert ms[|ms| - 1] == masterPairs[j];
  }

  lemma AllValidNext(masterPairs: seq<string>, j: nat)
    requires j < |masterPairs|
    ensures AllValid(masterPairs[..j + 1]) <==> AllValid(masterPairs[..j]) && IsValidPair(masterPairs[j])
  {
    assert forall t :: 0 <= t < j ==> masterPairs[..j + 1][t] == masterPairs[..j][t];
  }

  /**
   * What the multiRestrict loop keeps after its first j masters: the index is
   * AddAll of them over the record at position i, and `ret` is 0 exactly when
   * all of them were valid.
   */
  predicate LoopState(start: seq<Parent>, i: nat, ms: seq<string>, j: nat, index: seq<Parent>, rc: int) {
    i < |start| && j <= |ms| &&
    index == AddAll(start, i, ms[..j]) && rc == if AllValid(ms[..j]) then Ok else Fail
  }

  /**
   * One turn of the multiRestrict loop: an invalid master sets the return
   * code to -1 and is skipped, a valid one is added with add_restriction,
   * which cannot refuse it. Either way the loop state carries over to j + 1.
   */
  lemma MultiRestrictTurn(start: seq<Parent>, i: nat, ms: seq<string>, j: nat,
                          index: seq<Parent>, rc: int)
    requires j < |ms| && LoopState(start, i, ms, j, index, rc)
    ensures IsValidPair(ms[j]) ==>
      i < |index| && AddRestriction(index, i, ms[j]).Some? &&
      LoopState(start, i, ms, j + 1, AddRestriction(index, i, ms[j]).value, rc)
    ensures !IsValidPair(ms[j]) ==> LoopState(start, i, ms, j + 1, index, Fail)
  {
    AddAllNext(start, i, ms, j);
    AllValidNext(ms, j);
  }

  /**
   * `restricted_dictionary_multiRestrict`; None stands for a NULL argument and
   * numMasters for the length the caller passes with the array.
   */
  function MultiRestrictStep(ps: seq<Parent>, slavePair: Option<string>,
                             masterPairs: Option<seq<string>>, numMasters: nat): (r: Step)
    requires masterPairs.Some? ==> numMasters <= |masterPairs.value|
    ensures r.rc == Ok || r.rc == Fail
    ensures r.rc == Ok <==>
      slavePair.Some? && masterPairs.Some? && numMasters != 0 &&
      IsValidPair(slavePair.value) && AllValid(masterPairs.value[..numMasters])
    ensures (slavePair.None? || masterPairs.None? || numMasters == 0 ||
             !IsValidPair(slavePair.value)) ==> r.index == ps
    ensures IndexInvariant(ps) ==> IndexInvariant(r.index)
  {
    if slavePair.None? || masterPairs.None? || numMasters == 0 then Step(ps, Fail)
    else
      match SplitAndSetParent(ps, slavePair.value)
      case None => Step(ps, Fail)
      case Some((ps1, i)) =>
        var ms := masterPairs.value[..numMasters];
        Step(AddAll(ps1, i, ms), if AllValid(ms) then Ok else Fail)
  }

  /**
   * multiRestrict with its guards passed: once the loop has run over the
   * record that split_and_set_parent gave, the index and the return code are
   * those of MultiRestrictStep.
   */
  lemma MultiRestrictUnfold(ps: seq<Parent>, slavePair: string, masterPairs: seq<string>, numMasters: nat,
                            index: seq<Parent>, rc: int)
    requires IsValidPair(slavePair) && 0 < numMasters <= |masterPairs|
    requires var r := SplitAndSetParent(ps, slavePair).value;
      LoopState(r.0, r.1, masterPairs, numMasters, index, rc)
    ensures Step(index, rc) == MultiRestrictStep(ps, Some(slavePair), Some(masterPairs), numMasters)
    ensures IndexInvariant(ps) ==> IndexInvariant(index)
  {
  }

  /** The (slave, master) link is registered: the record holds that exact entry. */
  predicate Registered(ps: seq<Parent>, slave: Pair, master: Pair) {
    Child(master.key, master.value) in Masters(ps, slave.key, slave.value)
  }

  /**
   * The removal half of `restricted_dictionary_unrestrict`: `unset_child` on
   * the record at position i, then `unset_parent` once it has no entries.
   */
  function RemoveRestriction(ps: seq<Parent>, i: nat, masterKey: string): (r: seq<Parent>)
    requires i < |ps|
    ensures IndexInvariant(ps) ==> IndexInvariant(r)
  {
    var ps1 := ps[i := ps[i].(children := UnsetChild(ps[i].children, masterKey))];
    UnsetChildKeepsInvariant(ps, i, masterKey);
    UnsetParentKeepsInvariant(ps1, ps[i].key, ps[i].value);
    if NumChildren(ps1[i]) == 0 then UnsetParent(ps1, ps[i].key, ps[i].value) else ps1
  }

  /** Removing one entry keeps the index invariant. */
  lemma UnsetChildKeepsInvariant(ps: seq<Parent>, i: nat, masterKey: string)
    requires i < |ps|
    ensures IndexInvariant(ps) ==>
      IndexInvariant(ps[i := ps[i].(children := UnsetChild(ps[i].children, masterKey))])
  {
    if !IndexInvariant(ps) {
      return;
    }
    var ps1 := ps[i := ps[i].(children := UnsetChild(ps[i].children, masterKey))];
    forall t, u | 0 <= t < u < |ps1|
      ensures !IsParent(ps1[u], ps1[t].key, ps1[t].value)
    {
      assert !IsParent(ps[u], ps[t].key, ps[t].value);
    }
    assert Shaped(ps1[i]);
  }

  /** Removing a record keeps the index invariant. */
  lemma UnsetParentKeepsInvariant(ps: seq<Parent>, k: string, v: string)
    ensures IndexInvariant(ps) ==> IndexInvariant(UnsetParent(ps, k, v))
  {
    var r := UnsetParent(ps, k, v);
    if FindParent(ps, k, v).Some? {
      var i := FindParent(ps, k, v).value;
      assert forall t :: 0 <= t < |r| ==> r[t] == ps[if t < i then t else t + 1];
    }
  }

  /** `restricted_dictionary_unrestrict`; None stands for a NULL argument. */
  function UnrestrictStep(ps: seq<Parent>, slavePair: Option<string>, masterPair: Option<string>): (r: Step)
    ensures r.rc == Ok || r.rc == Fail
    ensures r.rc == Ok <==>
      slavePair.Some? && masterPair.Some? &&
      IsValidPair(slavePair.value) && IsValidPair(masterPair.value) &&
      Registered(ps, SplitPair(slavePair.value).value, SplitPair(masterPair.value).value)
    ensures r.rc == Fail ==> r.index == ps
    ensures IndexInvariant(ps) ==> IndexInvariant(r.index)
  {
    if slavePair.None? || masterPair.None? then Step(ps, Fail)
    else if !IsValidPair(slavePair.value) || !IsValidPair(masterPair.value) then Step(ps, Fail)
    else
      var skv := SplitPair(slavePair.value).value;
      match FindParent(ps, skv.key, skv.value)
      case None => Step(ps, Fail)
      case Some(i) =>
        var mkv := SplitPair(masterPair.value).value;
        if !HasChild(ps[i], mkv.key, mkv.value) then Step(ps, Fail)
        else Step(RemoveRestriction(ps, i, mkv.key), Ok)
  }

  /** `struct restricted_dictionary`: the store and the restriction index. */
  class RestrictedDict {
    var base: map<string, string>
    var index: seq<Parent>

    predicate Valid()
      reads this
    {
      IndexInvariant(index)
    }

    /**
     * `restricted_dictionary_new`: an empty store and an empty index. The
     * capacity hint has no observable effect in the model.
     */
    constructor (size: nat)
      ensures Valid() && base == map[] && index == []
    {
      base := map[];
      index := [];
    }

    /** `has_restriction`: scans the record's masters, stopping at the first that holds. */
    method HasRestriction(key: string, val: string) returns (vetoed: bool)
      requires Valid()
      ensures vetoed == Vetoed(base, index, key, val)
    {
      VetoedByMasters(base, index, key, val);
      var slave := FindParent(index, key, val);
      if slave.None? {
        return false;
      }
      var masters := index[slave.value].children;
      assert masters == Masters(index, key, val);
      var j := 0;
      while j < |masters|
        invariant 0 <= j <= |masters|
        invariant forall t :: 0 <= t < j ==> !Holds(base, masters[t])
      {
        var valueInDict := Lookup(base, masters[j].key);
        if valueInDict != Absent && valueInDict == masters[j].value {
          return true;
        }
        j := j + 1;
      }
      return false;
    }

    /**
     * `restricted_dictionary_set`: refuses a NULL key or value and a vetoed
     * pair; otherwise writes the store (`dictionary_set`, which succeeds).
     */
    method Set(key: Option<string>, val: Option<string>) returns (rc: int)
      requires Valid()
      modifies this`base
      ensures Valid()
      ensures rc == Fail <==>
        key.None? || val.None? || Vetoed(old(base), index, key.value, val.value)
      ensures rc == Fail ==> base == old(base)
      ensures rc != Fail ==> rc == Ok && base == old(base)[key.value := val.value]
    {
      if key.None? || val.None? {
        return Fail;
      }
      var vetoed := HasRestriction(key.value, val.value);
      if vetoed {
        return Fail;
      }
      base := base[key.value := val.value];
      return Ok;
    }

    /** `restricted_dictionary_restrict`. */
    method Restrict(slavePair: Option<string>, masterPair: Option<string>) returns (rc: int)
      requires Valid()
      modifies this`index
      ensures Valid()
      ensures Step(index, rc) == RestrictStep(old(index), slavePair, masterPair)
    {
      if slavePair.None? || masterPair.None? {
        return Fail;
      }
      var parent := SplitAndSetParent(index, slavePair.value);
      if parent.None? {
        return Fail;
      }
      index := parent.value.0;
      var added := AddRestriction(index, parent.value.1, masterPair.value);
      if added.None? {
        return Fail;
      }
      index := added.value;
      return Ok;
    }

    /** `restricted_dictionary_multiRestrict`: a failing master does not stop the loop. */
    method MultiRestrict(slavePair: Option<string>, masterPairs: Option<seq<string>>,
                         numMasters: nat) returns (rc: int)
      requires Valid()
      requires masterPairs.Some? ==> numMasters <= |masterPairs.value|
      modifies this`index
      ensures Valid()
      ensures Step(index, rc) == MultiRestrictStep(old(index), slavePair, masterPairs, numMasters)
    {
      if slavePair.None? || masterPairs.None? || numMasters == 0 {
        return Fail;
      }
      ghost var before := index;
      var parent := SplitAndSetParent(index, slavePair.value);
      if parent.None? {
        return Fail;
      }
      index := parent.value.0;
      var i := parent.value.1;
      ghost var start := index;
      var ms := masterPairs.value;
      assert ms[..0] == [];
      rc := Ok;
      for j := 0 to numMasters
        invariant LoopState(start, i, ms, j, index, rc)
      {
        MultiRestrictTurn(start, i, ms, j, index, rc);
        if !IsValidPair(ms[j]) {
          rc := Fail;
          continue;
        }
        // add_restriction cannot refuse a master that is_valid_pair accepted
        index := AddRestriction(index, i, ms[j]).value;
      }
      MultiRestrictUnfold(before, slavePair.value, ms, numMasters, index, rc);
    }

    /**
     * `restricted_dictionary_unrestrict`: removes one registered entry and
     * the record with it once the record has no entries left.
     */
    method Unrestrict(slavePair: Option<string>, masterPair: Option<string>) returns (rc: int)
      requires Valid()
      modifies this`index
      ensures Valid()
      ensures Step(index, rc) == UnrestrictStep(old(index), slavePair, masterPair)
    {
      if slavePair.None? || masterPair.None? {
        return Fail;
      }
      if !IsValidPair(slavePair.value) || !IsValidPair(masterPair.value) {
        return Fail;
      }
      var slave := SplitPair(slavePair.value).value;
      var found := FindParent(index, slave.key, slave.value);
      if found.None? {
        return Fail;
      }
      var i := found.value;
      var master := SplitPair(masterPair.value).value;
      if !HasChild(index[i], master.key, master.value) {
        return Fail;
      }
      ghost var before := index;
      index := index[i := index[i].(children := UnsetChild(index[i].children, master.key))];
      if NumChildren(index[i]) == 0 {
        index := UnsetParent(index, slave.key, slave.value);
      }
      assert index == RemoveRestriction(before, i, master.key);
      return Ok;
    }
  }

  /**
   * `restricted_dictionary_del`: a NULL handle is ignored; otherwise the
   * store and every record with its entries are released.
   */
  method Delete(d: RestrictedDict?)
    modifies d
    ensures d != null ==> d.base == map[] && d.index == []
  {
    if d == null {
      return;
    }
    d.base := map[];
    d.index := [];
  }
}
