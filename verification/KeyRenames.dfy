/**
 Renaming keys one after the other, in a list and in a map, against renaming them
 all at once. `scripts/migrate_uuidv4_codex_live_sessions.py` does it one by one.
 */
module KeyRenames {
  import opened Options
  import opened Seqs

  datatype Rename = Rename(oldKey: string, newKey: string)

  function RenameOrder(order: seq<string>, r: Rename): (order': seq<string>)
    ensures |order'| == |order|
    ensures forall i :: 0 <= i < |order| ==> order'[i] == if order[i] == r.oldKey then r.newKey else order[i]
  {
    seq(|order|, i requires 0 <= i < |order| => if order[i] == r.oldKey then r.newKey else order[i])
  }

  function RenameEntry(ka: map<string, string>, r: Rename): (ka': map<string, string>) {
    if r.oldKey in ka then (ka - {r.oldKey})[r.newKey := ka[r.oldKey]] else ka
  }

  function OrderAfter(order: seq<string>, rs: seq<Rename>): (order': seq<string>)
    ensures |order'| == |order|
  {
    if rs == [] then order else RenameOrder(OrderAfter(order, Front(rs)), Last(rs))
  }

  function EntriesAfter(ka: map<string, string>, rs: seq<Rename>): (ka': map<string, string>) {
    if rs == [] then ka else RenameEntry(EntriesAfter(ka, Front(rs)), Last(rs))
  }

  /** No new key is an old key: renames cannot chain. */
  predicate Unchained(rs: seq<Rename>) {
    forall j, k :: 0 <= j < |rs| && 0 <= k < |rs| ==> rs[j].newKey != rs[k].oldKey
  }

  predicate DistinctOld(rs: seq<Rename>) {
    forall j, k :: 0 <= j < k < |rs| ==> rs[j].oldKey != rs[k].oldKey
  }

  predicate DistinctNew(rs: seq<Rename>) {
    forall j, k :: 0 <= j < k < |rs| ==> rs[j].newKey != rs[k].newKey
  }

  // ---------------------------------------------------------------- the list

  /** The first rename of `key`. */
  function FirstFor(rs: seq<Rename>, key: string): (r: Option<Rename>)
    ensures r.Some? ==> r.value in rs && r.value.oldKey == key
    ensures r.None? <==> forall k :: 0 <= k < |rs| ==> rs[k].oldKey != key
  {
    if rs == [] then None else
      var before := FirstFor(Front(rs), key);
      assert rs == Front(rs) + [Last(rs)];
      if before.Some? then before
      else if Last(rs).oldKey == key then Some(Last(rs)) else None
  }

  /** All renames at once. */
  function Substitute(rs: seq<Rename>, key: string): (key': string) {
    var r := FirstFor(rs, key);
    if r.Some? then r.value.newKey else key
  }

  /** Renaming the list rename by rename is the one simultaneous substitution, place by place. */
  lemma {:induction false} OrderIsSubstituted(order: seq<string>, rs: seq<Rename>)
    requires Unchained(rs)
    ensures forall i :: 0 <= i < |order| ==> OrderAfter(order, rs)[i] == Substitute(rs, order[i])
    decreases |rs|
  {
    if rs != [] {
      OrderIsSubstituted(order, Front(rs));
      forall i | 0 <= i < |order|
        ensures OrderAfter(order, rs)[i] == Substitute(rs, order[i])
      {
        var before := FirstFor(Front(rs), order[i]);
        if before.Some? {
          var k :| 0 <= k < |rs| - 1 && rs[k] == before.value;
          assert rs[k].newKey != rs[|rs| - 1].oldKey;
        }
      }
    }
  }

  // ----------------------------------------------------------------- the map

  /** Renames whose old and new key are both in the map: each overwrites an entry. */
  function Collisions(rs: seq<Rename>, ka: map<string, string>): (n: nat) {
    if rs == [] then 0
    else Collisions(Front(rs), ka) + if Last(rs).oldKey in ka && Last(rs).newKey in ka then 1 else 0
  }

  ghost predicate IsOld(rs: seq<Rename>, key: string) {
    exists k :: 0 <= k < |rs| && rs[k].oldKey == key
  }

  /** `key` is where an entry of the map was moved to. */
  ghost predicate IsMoved(rs: seq<Rename>, ka: map<string, string>, key: string) {
    exists k :: 0 <= k < |rs| && rs[k].oldKey in ka && rs[k].newKey == key
  }

  ghost predicate MembersAfter(rs: seq<Rename>, ka: map<string, string>, ka': map<string, string>) {
    forall key :: key in ka' <==> (key in ka && !IsOld(rs, key)) || IsMoved(rs, ka, key)
  }

  ghost predicate StayersAfter(rs: seq<Rename>, ka: map<string, string>, ka': map<string, string>) {
    forall key :: key in ka && !IsOld(rs, key) && !IsMoved(rs, ka, key) ==> key in ka' && ka'[key] == ka[key]
  }

  ghost predicate MoversAfter(rs: seq<Rename>, ka: map<string, string>, ka': map<string, string>) {
    forall k :: 0 <= k < |rs| && rs[k].oldKey in ka ==> rs[k].newKey in ka' && ka'[rs[k].newKey] == ka[rs[k].oldKey]
  }

  lemma MarksGrow(rs: seq<Rename>, ka: map<string, string>, key: string)
    requires rs != []
    ensures IsOld(rs, key) <==> IsOld(Front(rs), key) || Last(rs).oldKey == key
    ensures IsMoved(rs, ka, key) <==> IsMoved(Front(rs), ka, key) || (Last(rs).oldKey in ka && Last(rs).newKey == key)
  {
    assert forall k :: 0 <= k < |rs| - 1 ==> Front(rs)[k] == rs[k];
    assert rs[|rs| - 1] == Last(rs);
  }

  lemma RenameEntrySize(ka: map<string, string>, r: Rename)
    requires r.oldKey != r.newKey
    ensures |RenameEntry(ka, r)| == |ka| - if r.oldKey in ka && r.newKey in ka then 1 else 0
  {
    var ka' := RenameEntry(ka, r);
    if r.oldKey in ka {
      assert ka'.Keys == (ka.Keys - {r.oldKey}) + {r.newKey};
    }
    assert |ka'.Keys| == |ka'| && |ka.Keys| == |ka|;
  }

  /** The next rename meets its old key untouched, and its new key as the map had it at the start. */
  ghost predicate NextIsClear(rs: seq<Rename>, ka: map<string, string>)
    requires rs != []
  {
    && !IsOld(Front(rs), Last(rs).oldKey) && !IsMoved(Front(rs), ka, Last(rs).oldKey)
    && !IsOld(rs, Last(rs).newKey) && !IsMoved(Front(rs), ka, Last(rs).newKey)
  }

  lemma RenamesAreClear(rs: seq<Rename>, ka: map<string, string>)
    requires rs != [] && Unchained(rs) && DistinctOld(rs) && DistinctNew(rs)
    ensures NextIsClear(rs, ka)
    ensures Unchained(Front(rs)) && DistinctOld(Front(rs)) && DistinctNew(Front(rs))
  {
    assert forall k :: 0 <= k < |rs| - 1 ==> Front(rs)[k] == rs[k];
    assert Last(rs) == rs[|rs| - 1];
  }

  lemma MembersStep(rs: seq<Rename>, ka: map<string, string>, ka1: map<string, string>)
    requires rs != [] && NextIsClear(rs, ka) && MembersAfter(Front(rs), ka, ka1)
    ensures MembersAfter(rs, ka, RenameEntry(ka1, Last(rs)))
    ensures Last(rs).oldKey in ka1 <==> Last(rs).oldKey in ka
    ensures Last(rs).newKey in ka1 <==> Last(rs).newKey in ka
    ensures Last(rs).oldKey != Last(rs).newKey
  {
    MarksGrow(rs, ka, Last(rs).oldKey);
    MarksGrow(rs, ka, Last(rs).newKey);
    forall key
      ensures key in RenameEntry(ka1, Last(rs)) <==> (key in ka && !IsOld(rs, key)) || IsMoved(rs, ka, key)
    {
      MarksGrow(rs, ka, key);
    }
  }

  lemma StayersStep(rs: seq<Rename>, ka: map<string, string>, ka1: map<string, string>)
    requires rs != [] && StayersAfter(Front(rs), ka, ka1) && (Last(rs).oldKey in ka1 <==> Last(rs).oldKey in ka)
    ensures StayersAfter(rs, ka, RenameEntry(ka1, Last(rs)))
  {
    forall key | key in ka && !IsOld(rs, key) && !IsMoved(rs, ka, key)
      ensures key in RenameEntry(ka1, Last(rs)) && RenameEntry(ka1, Last(rs))[key] == ka[key]
    {
      MarksGrow(rs, ka, key);
      MarksGrow(rs, ka, Last(rs).newKey);
      assert key in ka1 && ka1[key] == ka[key];
    }
  }

  lemma MoversStep(rs: seq<Rename>, ka: map<string, string>, ka1: map<string, string>)
    requires rs != [] && NextIsClear(rs, ka)
    requires StayersAfter(Front(rs), ka, ka1) && MoversAfter(Front(rs), ka, ka1)
    ensures MoversAfter(rs, ka, RenameEntry(ka1, Last(rs)))
  {
    var some, r := Front(rs), Last(rs);
    forall k | 0 <= k < |rs| && rs[k].oldKey in ka
      ensures rs[k].newKey in RenameEntry(ka1, r) && RenameEntry(ka1, r)[rs[k].newKey] == ka[rs[k].oldKey]
    {
      if k < |some| {
        assert some[k] == rs[k];
        assert IsMoved(some, ka, rs[k].newKey);
      } else {
        assert r.oldKey in ka1;
      }
    }
  }

  /**
   Renaming the map rename by rename moves the entry of every old key, with its value, to its
   new key, keeps the other entries, and loses exactly one entry for each collision.
   */
  lemma {:induction false} EntriesAreMoved(ka: map<string, string>, rs: seq<Rename>)
    requires Unchained(rs) && DistinctOld(rs) && DistinctNew(rs)
    ensures var ka' := EntriesAfter(ka, rs);
      && MembersAfter(rs, ka, ka') && StayersAfter(rs, ka, ka') && MoversAfter(rs, ka, ka')
      && |ka'| + Collisions(rs, ka) == |ka|
    decreases |rs|
  {
    if rs != [] {
      var ka1 := EntriesAfter(ka, Front(rs));
      RenamesAreClear(rs, ka);
      EntriesAreMoved(ka, Front(rs));
      MembersStep(rs, ka, ka1);
      StayersStep(rs, ka, ka1);
      MoversStep(rs, ka, ka1);
      RenameEntrySize(ka1, Last(rs));
    }
  }

  lemma {:induction false} CollisionsAre(rs: seq<Rename>, ka: map<string, string>)
    ensures Collisions(rs, ka) == 0 <==> forall k :: 0 <= k < |rs| ==> !(rs[k].oldKey in ka && rs[k].newKey in ka)
    decreases |rs|
  {
    if rs != [] {
      CollisionsAre(Front(rs), ka);
      assert forall k :: 0 <= k < |rs| - 1 ==> Front(rs)[k] == rs[k];
    }
  }

  /** No entry is lost exactly when no entry is moved onto a key the map already has. */
  lemma NothingIsLostIff(ka: map<string, string>, rs: seq<Rename>)
    requires Unchained(rs) && DistinctOld(rs) && DistinctNew(rs)
    ensures |EntriesAfter(ka, rs)| == |ka| <==>
      forall k :: 0 <= k < |rs| ==> !(rs[k].oldKey in ka && rs[k].newKey in ka)
  {
    EntriesAreMoved(ka, rs);
    CollisionsAre(rs, ka);
  }
}
