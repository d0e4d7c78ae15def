/**
 * The restriction index that hierarchy_list.h provides to
 * restricted_dictionary.c: a list of parents (slave records), each owning a
 * list of children (master entries). The header's implementation is not part
 * of this model; its helpers are given here the contracts the restricted
 * dictionary relies on, one function per helper.
 */
module HierarchyList {
  import opened Wrappers

  /** A master entry: the master key and the value it must hold to veto. */
  datatype Child = Child(key: string, value: string)

  /** A slave record: the restricted pair and its master entries, in order. */
  datatype Parent = Parent(key: string, value: string, children: seq<Child>)

  predicate IsParent(p: Parent, k: string, v: string) {
    p.key == k && p.value == v
  }

  predicate HasKey(cs: seq<Child>, k: string) {
    exists j :: 0 <= j < |cs| && cs[j].key == k
  }

  /** At most one slave record per (key, value) pair. */
  predicate DistinctParents(ps: seq<Parent>) {
    forall i, j :: 0 <= i < j < |ps| ==> !IsParent(ps[j], ps[i].key, ps[i].value)
  }

  /** At most one master entry per master key within one record. */
  predicate DistinctKeys(cs: seq<Child>) {
    forall i, j :: 0 <= i < j < |cs| ==> cs[i].key != cs[j].key
  }

  predicate WellFormed(ps: seq<Parent>) {
    DistinctParents(ps) && forall i :: 0 <= i < |ps| ==> DistinctKeys(ps[i].children)
  }

  /** `find_parent`: the position of the record for (k, v), if there is one. */
  function FindParent(ps: seq<Parent>, k: string, v: string): (r: Option<nat>)
    ensures r.None? <==> forall i :: 0 <= i < |ps| ==> !IsParent(ps[i], k, v)
    ensures r.Some? ==> r.value < |ps| && IsParent(ps[r.value], k, v)
  {
    if |ps| == 0 then None
    else if IsParent(ps[0], k, v) then Some(0)
    else
      match FindParent(ps[1..], k, v)
      case None =>
        assert forall i :: 1 <= i < |ps| ==> ps[i] == ps[1..][i - 1];
        None
      case Some(i) => Some(i + 1)
  }

  /** In a well-formed index the record for a pair is the only one. */
  lemma FindParentUnique(ps: seq<Parent>, i: nat, k: string, v: string)
    requires DistinctParents(ps) && i < |ps| && IsParent(ps[i], k, v)
    ensures FindParent(ps, k, v) == Some(i)
  {
  }

  /**
   * `set_parent`: get-or-create. An existing record is returned as it is;
   * otherwise an empty record is appended.
   */
  function SetParent(ps: seq<Parent>, k: string, v: string): (r: (seq<Parent>, nat))
    ensures r.1 < |r.0| && IsParent(r.0[r.1], k, v)
    ensures FindParent(ps, k, v).Some? ==> r.0 == ps && r.1 == FindParent(ps, k, v).value
    ensures FindParent(ps, k, v).None? ==> r.0 == ps + [Parent(k, v, [])] && r.1 == |ps|
    ensures WellFormed(ps) ==> WellFormed(r.0)
  {
    match FindParent(ps, k, v)
    case Some(i) => (ps, i)
    case None => (ps + [Parent(k, v, [])], |ps|)
  }

  /** The position of the entry with master key k, if there is one. */
  function FindKey(cs: seq<Child>, k: string): (r: Option<nat>)
    ensures r.None? <==> !HasKey(cs, k)
    ensures r.Some? ==> r.value < |cs| && cs[r.value].key == k
  {
    if |cs| == 0 then None
    else if cs[0].key == k then Some(0)
    else
      match FindKey(cs[1..], k)
      case None =>
        assert forall j :: 1 <= j < |cs| ==> cs[j] == cs[1..][j - 1];
        None
      case Some(j) => Some(j + 1)
  }

  /**
   * `set_child`: upsert by master key. An entry with key k gets value v in
   * place; without one, (k, v) is appended.
   */
  function SetChild(cs: seq<Child>, k: string, v: string): (r: seq<Child>)
    ensures Child(k, v) in r
    ensures HasKey(cs, k) ==> |r| == |cs|
    ensures !HasKey(cs, k) ==> r == cs + [Child(k, v)]
    ensures forall c :: c in cs && c.key != k ==> c in r
    ensures DistinctKeys(cs) ==>
      (DistinctKeys(r) && forall c :: c in r ==> c == Child(k, v) || (c in cs && c.key != k))
  {
    match FindKey(cs, k)
    case Some(j) =>
      var r := cs[j := Child(k, v)];
      assert r[j] == Child(k, v);
      assert forall c :: c in cs && c.key != k ==> c in r by {
        forall c | c in cs && c.key != k ensures c in r {
          var t :| 0 <= t < |cs| && cs[t] == c;
          assert r[t] == c;
        }
      }
      r
    case None => cs + [Child(k, v)]
  }

  /** `find_child`: an entry matching both the master key and the value. */
  predicate HasChild(p: Parent, k: string, v: string) {
    Child(k, v) in p.children
  }

  /** `unset_child`: removes the entry with master key k, whatever its value. */
  function UnsetChild(cs: seq<Child>, k: string): (r: seq<Child>)
    ensures HasKey(cs, k) ==> |r| == |cs| - 1
    ensures !HasKey(cs, k) ==> r == cs
    ensures forall c :: c in r ==> c in cs
    ensures forall c :: c in cs && c.key != k ==> c in r
    ensures DistinctKeys(cs) ==> DistinctKeys(r) && !HasKey(r, k)
  {
    match FindKey(cs, k)
    case Some(j) =>
      var r := cs[..j] + cs[j + 1..];
      assert forall t :: 0 <= t < |r| ==> r[t] == cs[if t < j then t else t + 1];
      assert forall c :: c in cs && c.key != k ==> c in r by {
        forall c | c in cs && c.key != k ensures c in r {
          var t :| 0 <= t < |cs| && cs[t] == c;
          assert r[if t < j then t else t - 1] == c;
        }
      }
      r
    case None => cs
  }

  /** Removing the entry just appended for a new key gives the list back. */
  lemma UnsetChildAppended(cs: seq<Child>, k: string, v: string)
    requires !HasKey(cs, k)
    ensures UnsetChild(cs + [Child(k, v)], k) == cs
  {
    var r := cs + [Child(k, v)];
    assert r[|cs|].key == k;
    var j := FindKey(r, k).value;
    assert j == |cs|;
    assert r[..j] == cs;
  }

  /** `getNumOfChildren`. */
  function NumChildren(p: Parent): nat {
    |p.children|
  }

  /** `unset_parent`: removes the record for (k, v), if there is one. */
  function UnsetParent(ps: seq<Parent>, k: string, v: string): (r: seq<Parent>)
    ensures FindParent(ps, k, v).None? ==> r == ps
    ensures FindParent(ps, k, v).Some? ==>
      var i := FindParent(ps, k, v).value; r == ps[..i] + ps[i + 1..]
    ensures WellFormed(ps) ==> WellFormed(r) && FindParent(r, k, v).None?
  {
    match FindParent(ps, k, v)
    case None => ps
    case Some(i) =>
      var r := ps[..i] + ps[i + 1..];
      assert forall t :: 0 <= t < |r| ==> r[t] == ps[if t < i then t else t + 1];
      r
  }
}
