# Restricted dictionary, modelled in Dafny

This project models the restricted dictionary of `restricted_dictionary.c`.
It is a string key/value store with a layer of rules of the form "refuse
`set(k, v)` while key `mk` holds value `mv`". The restricted pair (k, v) is the
*slave*; every (mk, mv) is one of its *masters*. A slave is vetoed when ANY one
of its masters holds in the store.

- **`pairs.dfy`** (module `Pairs`): the rule texts `"key=value"`.
  - `IsValidPair` is `is_valid_pair`: there is an `=`, and the first `=` is
    neither the first nor the last character.
  - `SplitPair` is `split_pair`: split at the first `=`, found as `strchr`
    finds it (`FirstIndex`).
- **`hierarchy_list.dfy`** (module `HierarchyList`): the restriction index that
  `hierarchy_list.h` provides.
  - The index is a sequence of slave records (`Parent`), each with a sequence
    of master entries (`Child`).
  - The header's implementation is not part of this model. Its helpers are
    functions with the contracts the dictionary relies on:
    - `find_parent`: exact match on the pair;
    - `set_parent`: get-or-create;
    - `set_child`: upsert by master key;
    - `find_child`: match on key and value;
    - `unset_child`: remove by key;
    - `unset_parent`;
    - `getNumOfChildren`.
- **`restricted_dictionary.dfy`** (module `RestrictedDictionary`): the
  dictionary itself.
  - `class RestrictedDict` has two fields: the store `base`, a map that stands
    for `dictionary.h`, and the index `index`.
  - `Set` runs the veto check `HasRestriction` before it writes.
  - `Restrict`, `MultiRestrict` and `Unrestrict` change only `index`. Each is
    proved against a step function on the index: `RestrictStep`,
    `MultiRestrictStep` or `UnrestrictStep`.
  - The index invariant (`IndexInvariant`) has three parts:
    - at most one record per pair;
    - at most one entry per master key in a record;
    - every record is a valid pair, and no key contains `=`.

    Every operation keeps it.
- **`restriction_properties.dfy`** (module `RestrictionProperties`): what the
  step functions do to the masters of every pair and to the vetoes. This covers
  upsert, idempotence, removal symmetry, pruning of emptied records, batch
  registration and the sentinel.
- **`scenarios.dfy`** (module `Scenarios`): the test cases of `main.c` as client
  methods of `RestrictedDict`. Each one is proved for any keys and values of the
  shape the test uses.

A NULL `char *` argument is `None` of `Option<string>`. The C return codes
are `Ok` (0) and `Fail` (-1). The default that `has_restriction` passes to
`dictionary_get`, the text `"NULL"`, is kept as the constant `Absent`. It is
both the "unset" answer and a value that never vetoes, so a master whose
value is "NULL" can never block its slave.

Where the behaviour the library is described as having differs from its code,
the model follows the code:

- **Upsert per master key.** `hierarchy_list.h` is not part of this model, so
  this is an assumed contract of its `set_child`, not code that was read:
  `set_child` upserts by master key, and a slave keeps at most one master per
  master key. Under that contract, restricting employee=Andy against
  company=Google and then company=Yahoo leaves only company=Yahoo, and setting
  company=Google then does not block Andy. `main.c` labels its cases "One
  slave with two masters" (line 92) and "Two slaves with each two masters"
  (line 108), but it asserts only the return codes. Those hold under either
  contract. Under the upsert, `Scenarios.RestrictOverwrite` proves the index
  that case 6 leaves (after `Scenarios.RestrictEmpty`), `Scenarios.RestrictSecond`
  that of case 7, and `Scenarios.RestrictTwoByTwo` that of case 8. `RestrictThenUnrestrictLosesOverwritten` shows the
  consequence: once a master key is registered, restricting and then
  unrestricting a new value for it loses the old master for good.
- **Empty records survive failures.** The record is created before the master
  is split, so neither `restrict` nor `multiRestrict` is all-or-nothing. A
  master without `=` fails but leaves the (possibly new, empty) slave record
  behind (`RestrictBadMasterKeepsRecord`). A batch without a valid master does
  the same (`MultiRestrictAllInvalid`). The model keeps these empty records, as
  the code does. A later restrict and unrestrict of the same texts then removes
  such a record, and so does not give the old index back. The index becomes
  `UnsetParent` of it, and no pair's veto changes
  (`RestrictThenUnrestrictEmptyRecord`).
- **Masters are only checked for `=`.** `restrict` checks the master only for
  the presence of `=`, through `split_pair`. `"=x"` and `"k="` are accepted
  (`Scenarios.LooseMasters`). `multiRestrict` and `unrestrict` check masters
  with `is_valid_pair`, so `unrestrict` can never name such a master: it
  refuses the text at restricted_dictionary.c:246 (`UnrestrictStep` returns -1
  for a text that is not a valid pair). The two kinds then differ:
  - a `"k="` master goes only when a later `restrict` with key `k` overwrites
    it; the master that replaces it can be unrestricted as usual
    (`Scenarios.LooseMasterReplaced`);
  - a `"=x"` master, with the empty key, stays for good: no valid text has that
    key, so no `unrestrict` removes it (`UnrestrictKeepsEmptyKeys`), and only
    another `restrict` of a text starting with `=` can overwrite it.

## Model

| member | source | states |
|---|---|---|
| Pairs.FirstIndex | restricted_dictionary.c:90 | the first position of the character, or None exactly when it does not occur; nothing before it is that character |
| Pairs.SplitPair | restricted_dictionary.c:98-118 | fails exactly when the text has no `=`; otherwise key, `=` and value rebuild the text and the key has no `=` |
| Pairs.SplitJoin | restricted_dictionary.c:98-118 | splitting the text of a pair whose key has no `=` gives that pair back (the value may contain `=`) |
| Pairs.IsValidPair | restricted_dictionary.c:88-96 | a text is valid when its first `=` is neither its first nor its last character (a predicate; characterized by the two lemmas below) |
| Pairs.FirstIndexUnique | restricted_dictionary.c:90 | an occurrence with none before it is the one `strchr` finds |
| Pairs.ValidPairFirstSeparator | restricted_dictionary.c:88-96 | a text is valid exactly when some `=` with none before it lies strictly inside the text |
| Pairs.ValidPairIff | restricted_dictionary.c:88-96 | a text is a valid pair exactly when it splits with a non-empty key and a non-empty value |
| Pairs.ValidJoinIff | restricted_dictionary.c:88-96 | the text of (k, v) with k free of `=` is valid exactly when k and v are both non-empty |
| HierarchyList.FindParent | restricted_dictionary.c:20-23 | the position of a record matching key and value, or None exactly when no record matches |
| HierarchyList.FindParentUnique | restricted_dictionary.c:258-259 | in an index with one record per pair, the lookup finds that record |
| HierarchyList.SetParent | restricted_dictionary.c:157-158 | get-or-create: an existing record is returned unchanged; otherwise an empty record is appended at the end; the index stays well formed |
| HierarchyList.FindKey | restricted_dictionary.c:129 | the position of the entry with the master key, or None exactly when there is none |
| HierarchyList.SetChild | restricted_dictionary.c:129 | upsert: afterwards (k, v) is an entry; a new key is appended; the entries of other keys stay; keys stay distinct, and every entry is (k, v) or an old entry of another key |
| HierarchyList.UnsetChild | restricted_dictionary.c:287 | removes the one entry with the master key, whatever its value; the rest stay; the key is then absent |
| HierarchyList.UnsetChildAppended | restricted_dictionary.c:287 | removing the entry appended for a new key gives the old list back |
| HierarchyList.HasChild | restricted_dictionary.c:277 | `find_child`: the record has an entry with that exact key and value (a predicate) |
| HierarchyList.NumChildren | restricted_dictionary.c:290 | `getNumOfChildren`: the number of entries of the record (a plain function) |
| HierarchyList.UnsetParent | restricted_dictionary.c:299-301 | removes the record of the pair and keeps the rest in order; afterwards no record has the pair |
| RestrictedDictionary.Lookup | restricted_dictionary.c:27-28 | `dictionary_get` with the default "NULL": the stored value, or "NULL" for an absent key (a plain function) |
| RestrictedDictionary.Holds | restricted_dictionary.c:29-30 | a master entry holds when the looked-up value is not "NULL" and equals the entry's value (a predicate) |
| RestrictedDictionary.HoldsIff | restricted_dictionary.c:27-30 | a master entry holds exactly when its key is stored with its value and that value is not "NULL" |
| RestrictedDictionary.VetoedByMasters | restricted_dictionary.c:17-36 | in a well-formed index, a pair is vetoed exactly when one of its registered masters holds (the stored value is not "NULL" and equals the master value) |
| RestrictedDictionary.SplitAndSetParent | restricted_dictionary.c:143-167 | refuses exactly the slave texts that are not valid pairs; otherwise get-or-create: an existing record of the pair is returned with the index unchanged, and a new one is appended empty at the end; the invariant is kept |
| RestrictedDictionary.SetParentKeepsInvariant | restricted_dictionary.c:157-158 | creating the record of a valid slave pair only extends the index, and keeps the invariant |
| RestrictedDictionary.AddRestriction | restricted_dictionary.c:120-141 | refuses exactly the master texts without `=`; otherwise the record now has that exact entry, keeps its entries of every other master key, no other record changes, and the invariant is kept |
| RestrictedDictionary.RestrictStep | restricted_dictionary.c:169-196 | returns 0 exactly when both texts are given, the slave is a valid pair and the master has `=`, and -1 otherwise; a NULL or invalid slave leaves the index alone; the invariant is kept |
| RestrictedDictionary.AddAll | restricted_dictionary.c:215-231 | the loop changes only the slave's record, which stays in place, and keeps the invariant |
| RestrictedDictionary.AddAllNext | restricted_dictionary.c:217-231 | one turn of the loop: an invalid master is skipped, a valid one is added with add_restriction |
| RestrictedDictionary.AllValidNext | restricted_dictionary.c:218-223 | `ret` stays 0 after a turn exactly when it was 0 and this master was valid |
| RestrictedDictionary.MultiRestrictTurn | restricted_dictionary.c:217-231 | one turn of the loop in multiRestrict carries the loop state from j to j + 1: a valid master has `=` and adding it gives the index of the longer prefix, with `ret` as for that prefix; an invalid one leaves the index and sets `ret` to -1 |
| RestrictedDictionary.MultiRestrictStep | restricted_dictionary.c:198-237 | returns 0 exactly when the slave and array are given, the count is positive, the slave is valid and every master of the batch is valid; a NULL argument, a zero count or an invalid slave leaves the index alone; the invariant is kept |
| RestrictedDictionary.MultiRestrictUnfold | restricted_dictionary.c:207-236 | past its guards, once the loop has run over the whole batch from the record `set_parent` gave, the index and the return code are those of the step function, and the invariant is kept |
| RestrictedDictionary.RemoveRestriction | restricted_dictionary.c:287-301 | removing an entry, and then the emptied record, keeps the invariant |
| RestrictedDictionary.UnsetChildKeepsInvariant | restricted_dictionary.c:287 | removing one entry keeps the invariant |
| RestrictedDictionary.UnsetParentKeepsInvariant | restricted_dictionary.c:299-301 | removing a record keeps the invariant |
| RestrictedDictionary.UnrestrictStep | restricted_dictionary.c:239-309 | returns 0 exactly when both texts are given and valid and that exact master is registered for that slave; otherwise -1 and the index is unchanged; the invariant is kept |
| RestrictedDictionary.RestrictedDict.constructor | restricted_dictionary.c:38-56 | a new dictionary has an empty store and an empty index |
| RestrictedDictionary.RestrictedDict.HasRestriction | restricted_dictionary.c:17-36 | the scan of the record's masters answers exactly whether the pair is vetoed |
| RestrictedDictionary.RestrictedDict.Set | restricted_dictionary.c:72-86 | fails exactly on a NULL key or value or a vetoed pair (so a pair without a restriction is never refused), changing nothing; otherwise stores key := value and returns 0 |
| RestrictedDictionary.RestrictedDict.Restrict | restricted_dictionary.c:169-196 | the new index and return code are those of RestrictStep, and the invariant is kept |
| RestrictedDictionary.RestrictedDict.MultiRestrict | restricted_dictionary.c:198-237 | the loop leaves the index and return code of MultiRestrictStep, and the invariant is kept |
| RestrictedDictionary.RestrictedDict.Unrestrict | restricted_dictionary.c:239-309 | the new index and return code are those of UnrestrictStep, and the invariant is kept |
| RestrictedDictionary.Delete | restricted_dictionary.c:58-70 | a NULL handle is ignored; otherwise the store and the whole index are released |
| RestrictionProperties.MastersDistinct | restricted_dictionary.c:129 | the masters of one record never repeat a key |
| RestrictionProperties.HasKeyIff | restricted_dictionary.c:129 | a master key is present exactly when some entry carries it |
| RestrictionProperties.OtherMastersUnchanged | restricted_dictionary.c:157-158 | an update confined to one record, or appending it, leaves every other pair's masters alone |
| RestrictionProperties.RestrictMasters | restricted_dictionary.c:169-196 | restrict upserts the master into the slave's masters and changes no other pair's masters |
| RestrictionProperties.RestrictNewSlave | restricted_dictionary.c:169-196 | restrict for a slave pair without a record appends one record holding just that master |
| RestrictionProperties.RestrictKnownSlave | restricted_dictionary.c:169-196 | restrict for a slave pair with a record upserts the master into that record only |
| RestrictionProperties.RestrictVetoedIff | restricted_dictionary.c:17-36 | after restrict the slave is vetoed exactly when the new master holds, or an old master with another key holds |
| RestrictionProperties.RestrictThenSetVetoes | restricted_dictionary.c:79-83 | once the master pair (value not "NULL") holds in the store, the restricted slave pair is vetoed |
| RestrictionProperties.SentinelMastersNeverVeto | restricted_dictionary.c:27-30 | masters whose value is "NULL" never veto, whatever the store holds |
| RestrictionProperties.RestrictLeavesOtherPairs | restricted_dictionary.c:169-196 | restrict never changes whether another pair is vetoed |
| RestrictionProperties.RestrictIdempotent | restricted_dictionary.c:169-196 | restricting twice with the same texts is restricting once (the second call overwrites and does not duplicate) |
| RestrictionProperties.RestrictBadMasterKeepsRecord | restricted_dictionary.c:178-190 | a master without `=` fails, but the slave's record exists afterwards with its masters unchanged |
| RestrictionProperties.DropRecordDistinct | restricted_dictionary.c:300 | removing a record keeps one record per pair |
| RestrictionProperties.DropRecordKeepsOthers | restricted_dictionary.c:300 | removing a record leaves the masters of every other pair alone |
| RestrictionProperties.RemoveRestrictionOwn | restricted_dictionary.c:287-301 | the removal leaves the slave's masters without the entry of that master key |
| RestrictionProperties.RemoveRestrictionOthers | restricted_dictionary.c:287-301 | the removal leaves the masters of every other pair alone |
| RestrictionProperties.UnrestrictMasters | restricted_dictionary.c:239-309 | a successful unrestrict removes the master key from the slave's masters and changes no other pair's masters |
| RestrictionProperties.UnrestrictKeepsEmptyKeys | restricted_dictionary.c:246-248 | whatever the texts, unrestrict keeps every master with an empty key |
| RestrictionProperties.UnrestrictPrunes | restricted_dictionary.c:289-301 | after a successful unrestrict the slave's record is gone exactly when that master was its only one, and the index shrinks by one record exactly then |
| RestrictionProperties.UnrestrictVetoedIff | restricted_dictionary.c:239-309 | after unrestrict the removed key is no longer a master of the slave, which is vetoed exactly when one of its other masters holds |
| RestrictionProperties.DropEmptyRecordKeepsVetoes | restricted_dictionary.c:299-301 | removing a record without masters changes no pair's veto |
| RestrictionProperties.RestrictThenUnrestrictEmptyRecord | restricted_dictionary.c:169-309 | when the slave's record existed without masters, restrict and then unrestrict both succeed, the index becomes the old one without that record, and no pair's veto changes |
| RestrictionProperties.RestrictThenUnrestrictLosesOverwritten | restricted_dictionary.c:129 | when the slave already has a master with that key (whatever its value), restrict and then unrestrict succeed, that master is gone, and the index differs from the old one |
| RestrictionProperties.RestrictThenUnrestrict | restricted_dictionary.c:169-309 | restrict and then unrestrict of the same texts gives the old index back (the new record is pruned), unless the master key was registered already or the record existed empty |
| RestrictionProperties.SetChildKeepsKeys | restricted_dictionary.c:129 | an upsert never loses a master key, and registers its own |
| RestrictionProperties.TurnKeepsRegistered | restricted_dictionary.c:217-231 | one turn of the loop keeps every registered master key, and keeps an entry unless the turn's valid master has its key |
| RestrictionProperties.AddAllLastChildren | restricted_dictionary.c:217-231 | the record after the loop is the record after all but the last master, upserted with the last master when it is valid |
| RestrictionProperties.AddAllRegisters | restricted_dictionary.c:217-231 | after the loop, every valid master's key is registered, with its own value unless a later valid master of the batch has the same key |
| RestrictionProperties.MultiRestrictRegisters | restricted_dictionary.c:198-237 | multiRestrict registers every valid master of the batch, even when others in it are invalid |
| RestrictionProperties.AddAllOnlyValid | restricted_dictionary.c:217-231 | after the loop, every master of the slave's record was there before or comes from a valid master of the batch |
| RestrictionProperties.MultiRestrictOnlyValid | restricted_dictionary.c:198-237 | multiRestrict, even on a mixed batch, adds to the slave's masters only entries split from valid masters of the batch |
| RestrictionProperties.AddAllKeepsOthers | restricted_dictionary.c:217-231 | after the loop, the record keeps every entry whose key no valid master of the batch names |
| RestrictionProperties.MultiRestrictKeepsOthers | restricted_dictionary.c:198-237 | multiRestrict keeps every master of the slave whose key no valid master of the batch names |
| RestrictionProperties.MultiRestrictLeavesOthers | restricted_dictionary.c:198-237 | multiRestrict changes no other pair's masters |
| RestrictionProperties.AddAllNoneValid | restricted_dictionary.c:217-224 | a batch without a valid master leaves the index as it was |
| RestrictionProperties.MultiRestrictAllInvalid | restricted_dictionary.c:206-236 | a batch without a valid master for a new slave fails and leaves an empty record appended |
| RestrictionProperties.MultiRestrictSingle | restricted_dictionary.c:198-237 | a batch of one valid master does exactly what restrict does |
| Scenarios.SetCases | main.c:30-59 | a NULL key or value is refused; a key can be set and set again |
| Scenarios.RestrictRefusals | main.c:61-84 | NULL and malformed arguments are refused; the malformed master leaves an empty record |
| Scenarios.RestrictEmpty | main.c:86-90 | the first restrict on a new dictionary creates one record with one master |
| Scenarios.RestrictOverwrite | main.c:92-98 | a second master with the same key overwrites the first |
| Scenarios.RestrictSecond | main.c:100-106 | a second slave gets its own record after the first |
| Scenarios.RestrictOverwriteLast | main.c:108-118 | the second slave's master is overwritten in the same way |
| Scenarios.RestrictTwoByTwo | main.c:108-118 | all four calls succeed and leave for each slave only the last master of the key |
| Scenarios.RestrictThenSet | main.c:179-190 | after restrict the master can be set, and then the slave pair is refused |
| Scenarios.UnrestrictRefusals | main.c:121-152 | unrestrict with NULL, malformed or never-restricted arguments fails and the index stays empty |
| Scenarios.UnrestrictMismatch | main.c:154-168 | unrestrict for another slave value, or another master value, fails and keeps the restriction |
| Scenarios.RestrictThenUnrestrictCase | main.c:170-176 | removing the one restriction succeeds and empties the index |
| Scenarios.MultiRestrictRefusals | main.c:201-226 | a NULL slave, a NULL array, an invalid slave or a zero count fails and creates no record |
| Scenarios.MultiRestrictEmptyTexts | main.c:228-233 | a batch of two empty texts fails and leaves an empty record |
| Scenarios.MultiRestrictOne | main.c:235-240 | a batch of one valid master succeeds and registers it |
| Scenarios.FirstOfTwoRegisters | main.c:242-255 | in a batch of two, the first master is registered unless the second has its key |
| Scenarios.SecondOfTwoRegisters | main.c:250-255 | in a batch of two, a valid second master is registered |
| Scenarios.MultiRestrictPartial | main.c:242-248 | a batch with an invalid master fails, yet its valid master is registered |
| Scenarios.BothOfTwoRegister | main.c:250-255 | a batch of two valid masters with different keys returns 0 and registers both |
| Scenarios.MultiRestrictAll | main.c:250-255 | a batch of two valid masters of different keys succeeds and registers both |
| Scenarios.SentinelCase | restricted_dictionary.c:27-30 | restricting against a master valued "NULL" succeeds, and neither the master pair nor, once the store holds "NULL" for the master key, the slave pair is vetoed |
| Scenarios.SentinelNeverVetoes | restricted_dictionary.c:27-30 | a master valued "NULL" does not block its slave even when the store holds "NULL" for its key |
| Scenarios.LooseMasters | restricted_dictionary.c:98-104 | restrict accepts the masters `"=x"` and `"k="`, since it only looks for `=` |
| Scenarios.LooseMasterStays | restricted_dictionary.c:246-248 | restrict registers a `"k="` master, and unrestrict of that text fails and keeps it |
| Scenarios.LooseMasterOverwritten | restricted_dictionary.c:129 | restricting `"k=v"` over a `"k="` master replaces it, and unrestrict of `"k=v"` then empties the index |
| Scenarios.LooseMasterReplaced | restricted_dictionary.c:169-309 | a `"k="` master cannot be unrestricted, but goes once a restrict of the same key overwrites it |

## Left out

- The error callback (`restricted_dictionary_set_error_callback` and every `error_callback` call) only reports diagnostics and does not change any result; it is not modelled.
- Allocation failures are not modelled; the operations always succeed:
  - `malloc` and `dictionary_new` in `new`;
  - `strndup` and `strdup` in `split_pair`;
  - `set_parent` and `set_child` returning NULL;
  - `getNumOfChildren` failing.

  The code paths that return -1 for these are absent.
- `dictionary.h` is not part of this model. The store is a `map<string, string>`. `dictionary_get` with a default is `Lookup`. `dictionary_set` is taken to store the pair and return 0.
- `hierarchy_list.h` is not part of this model. Its helpers are given the contracts listed above. `find_parent`, `set_parent`, `unset_parent` and `find_child` match key and value exactly. `set_child` and `unset_child` work by master key. The value passed to `unset_child` at restricted_dictionary.c:287 is ignored. `find_child` has just matched that exact entry, and keys are distinct within a record, so removing by key removes the same entry.
- The capacity hint of `restricted_dictionary_new` has no observable effect in the model.
- `restricted_dictionary_unrestrict_all` is declared in `restricted_dictionary.h:21-22` but defined nowhere in the source, so it has no model.
- RestrictedDictionary.RestrictedDict.Set: a NULL `r_dict` is not modelled. The receiver of every method is a live object. Only `Delete` takes a nullable handle, as `restricted_dictionary_del` does.
- RestrictedDictionary.RestrictedDict.MultiRestrict: requires `numMasters <= |masterPairs|`. The C code trusts `num_masters` to stay within the array, and reading past it is undefined behaviour.
- RestrictedDictionary.RestrictedDict.MultiRestrict: a NULL element of `master_pairs` is not modelled. At restricted_dictionary.c:218 it would reach `is_valid_pair` and so `strchr(NULL, '=')`, which is undefined behaviour, and a `seq<string>` has no such element.
- Memory release (`free`, `dictionary_del`, `unset_parents`) is modelled only as `Delete` emptying the store and the index. The nodes of the C lists are values here, so there is no aliasing and no use-after-free to model.
- Strings are sequences of characters without a terminating NUL. A C string cannot contain one, so nothing is lost.
