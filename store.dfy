/** The vector collection as the program sees it: a map from fragment id to
    fragment text. A batch add either stores the whole batch or fails, and a
    failed batch may already have stored some of its fragments, since the
    collection inserts the fragments of a batch one by one. */
module FragmentStore {
  import opened FragmentIds

  type Store = map<string, string>

  /** What the collection reports for a batch add: every fragment stored, or
      an error after which the fragments at the indices `landed` are stored. */
  datatype AddOutcome = Stored | Failed(landed: set<nat>)

  function AllIndices(n: nat): (s: set<nat>)
    ensures forall i: nat :: i in s <==> i < n
  {
    if n == 0 then {} else AllIndices(n - 1) + {n - 1}
  }

  /** Writes texts[i] under ids[i] for every index i in `which`, a later
      index overwriting an earlier one with the same id. */
  function Put(store: Store, ids: seq<string>, texts: seq<string>, which: set<nat>): (r: Store)
    requires |ids| == |texts|
    ensures forall k :: k in store && k !in ids ==> k in r && r[k] == store[k]
    ensures forall k :: k in r ==> k in store || k in ids
    ensures Distinct(ids) ==>
              forall i :: 0 <= i < |ids| && i in which ==> ids[i] in r && r[ids[i]] == texts[i]
    ensures Distinct(ids) ==>
              forall i :: 0 <= i < |ids| && i !in which ==>
                (ids[i] in r <==> ids[i] in store) && (ids[i] in store ==> r[ids[i]] == store[ids[i]])
    decreases |ids|
  {
    if ids == [] then store
    else
      var n := |ids| - 1;
      var prev := Put(store, ids[..n], texts[..n], which);
      assert forall k :: k in ids[..n] ==> k in ids;
      if n in which then prev[ids[n] := texts[n]] else prev
  }

  /** The store after a batch add with the given outcome. */
  function ApplyAdd(store: Store, ids: seq<string>, texts: seq<string>, outcome: AddOutcome): Store
    requires |ids| == |texts|
  {
    match outcome
    case Stored => Put(store, ids, texts, AllIndices(|ids|))
    case Failed(landed) => Put(store, ids, texts, landed)
  }

  /** A successful add of a batch of distinct ids stores exactly that batch
      on top of the rest of the store. */
  lemma AddStored(store: Store, ids: seq<string>, texts: seq<string>)
    requires |ids| == |texts| && Distinct(ids)
    ensures var r := ApplyAdd(store, ids, texts, Stored);
            (forall i :: 0 <= i < |ids| ==> ids[i] in r && r[ids[i]] == texts[i])
            && (forall k :: k in r && k !in ids ==> k in store && r[k] == store[k])
  {
  }

  /** Adding the same batch again changes nothing: the second add overwrites
      each fragment with the text it already has. */
  lemma AddStoredTwice(store: Store, ids: seq<string>, texts: seq<string>)
    requires |ids| == |texts| && Distinct(ids)
    ensures var once := ApplyAdd(store, ids, texts, Stored);
            ApplyAdd(once, ids, texts, Stored) == once
  {
    var once := ApplyAdd(store, ids, texts, Stored);
    var twice := ApplyAdd(once, ids, texts, Stored);
    AddStored(store, ids, texts);
    AddStored(once, ids, texts);
    forall k | k in once ensures k in twice && twice[k] == once[k] {
      if k in ids {
        var i :| 0 <= i < |ids| && ids[i] == k;
      }
    }
    assert twice.Keys == once.Keys;
  }

  /** Adding fresh, distinct ids grows the store by exactly the batch size. */
  lemma {:induction false} PutFreshSize(store: Store, ids: seq<string>, texts: seq<string>, which: set<nat>)
    requires |ids| == |texts| && Distinct(ids)
    requires forall i :: 0 <= i < |ids| ==> i in which && ids[i] !in store
    ensures |Put(store, ids, texts, which)| == |store| + |ids|
    decreases |ids|
  {
    if ids != [] {
      var n := |ids| - 1;
      PutFreshSize(store, ids[..n], texts[..n], which);
      var prev := Put(store, ids[..n], texts[..n], which);
      assert ids[n] !in prev by {
        assert ids[n] !in ids[..n];
      }
    }
  }
}
