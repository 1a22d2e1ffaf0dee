/**
 The quiz store as the commands see it: an immutable snapshot of the rows `findAll` lists, in
 listing order, looked up by id the way `findById` does.
 */
module Quizzes {
  import opened Wrappers

  /** One quiz row: its primary key, the question and the expected answer. */
  datatype Quiz = Quiz(id: int, question: string, answer: string)

  /** The table in the order `findAll` returns it. */
  type Store = seq<Quiz>

  /** Primary keys are unique. */
  predicate UniqueIds(store: Store)
  {
    forall i, j :: 0 <= i < j < |store| ==> store[i].id != store[j].id
  }

  predicate Distinct(s: seq<int>)
  {
    forall i, j :: 0 <= i < j < |s| ==> s[i] != s[j]
  }

  /** Some row of the store has key `id`. */
  predicate HasId(store: Store, id: int)
  {
    exists q :: q in store && q.id == id
  }

  /** `findById(id)`: the row with that key, or `null` (here `None`) when there is none. */
  function Lookup(store: Store, id: int): (r: Option<Quiz>)
    ensures r.Some? ==> r.value in store && r.value.id == id
    ensures r.None? <==> !HasId(store, id)
  {
    if store == [] then None
    else if store[0].id == id then Some(store[0])
    else
      var r := Lookup(store[1..], id);
      assert forall q :: q in store[1..] ==> q in store;
      assert forall q :: q in store ==> q == store[0] || q in store[1..];
      r
  }

  /** `settingUp`: the key of every row, pushed in listing order onto an empty array. */
  function SettingUp(store: Store): (ids: seq<int>)
    ensures |ids| == |store|
    ensures forall i :: 0 <= i < |ids| ==> ids[i] == store[i].id
  {
    if store == [] then [] else [store[0].id] + SettingUp(store[1..])
  }

  // ---------------------------------------------------------------------------------------
  // Properties

  /** With unique keys, looking up a row's key finds that very row. */
  lemma {:induction false} LookupFindsRow(store: Store, q: Quiz)
    requires UniqueIds(store) && q in store
    ensures Lookup(store, q.id) == Some(q)
  {
    if store[0] != q {
      assert q in store[1..];
      assert UniqueIds(store[1..]);
      assert store[0].id != q.id by {
        var j :| 0 <= j < |store| && store[j] == q;
      }
      LookupFindsRow(store[1..], q);
    }
  }

  /** The list `settingUp` builds holds exactly the keys that `findById` resolves. */
  lemma SettingUpKeys(store: Store, id: int)
    ensures id in SettingUp(store) <==> Lookup(store, id).Some?
  {
    var ids := SettingUp(store);
    if id in ids {
      var i :| 0 <= i < |ids| && ids[i] == id;
      assert store[i] in store;
    }
    if Lookup(store, id).Some? {
      var q := Lookup(store, id).value;
      var i :| 0 <= i < |store| && store[i] == q;
      assert ids[i] == id;
    }
  }

  /** Unique keys give a list without repetitions. */
  lemma SettingUpDistinct(store: Store)
    requires UniqueIds(store)
    ensures Distinct(SettingUp(store))
  {
  }
}
