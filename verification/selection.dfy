/**
 * The wizard's checkbox state: a JavaScript object from line-item id to a
 * boolean, updated with `{...prev, [id]: checked}`. Object keys keep their
 * insertion order, so the object is an association list with distinct keys.
 */
module Selection {
  import opened Wrappers
  import opened Seqs

  /** One property of the object; keys are line-item ids (strings) in the wizard. */
  datatype Entry<K> = Entry(id: K, checked: bool)

  /** The keys, in insertion order (`Object.keys`). */
  function Ids<K(==,!new)>(sel: seq<Entry<K>>): (ids: seq<K>)
    ensures |ids| == |sel|
    decreases |sel|
  {
    if |sel| == 0 then [] else [sel[0].id] + Ids(sel[1..])
  }

  /** Every key occurs once, as in any JavaScript object; `DistinctIdsAgree` shows this is `NoDuplicates(Ids(sel))`. */
  ghost predicate DistinctIds<K(!new)>(sel: seq<Entry<K>>)
  {
    forall i, j :: 0 <= i < j < |sel| ==> sel[i].id != sel[j].id
  }

  /** `sel[id]`: the flag stored under `id`, or `None` when the key is absent. */
  function Lookup<K(==,!new)>(sel: seq<Entry<K>>, id: K): (r: Option<bool>)
    ensures r.Some? <==> id in Ids(sel)
    ensures r.Some? ==> Entry(id, r.value) in sel
    decreases |sel|
  {
    if |sel| == 0 then None
    else if sel[0].id == id then Some(sel[0].checked)
    else Lookup(sel[1..], id)
  }

  /** With distinct keys, the flag looked up is the one stored in the entry for that key. */
  lemma {:induction false} LookupDistinct<K(!new)>(sel: seq<Entry<K>>, id: K, b: bool)
    requires DistinctIds(sel)
    ensures Lookup(sel, id) == Some(b) <==> Entry(id, b) in sel
    decreases |sel|
  {
    if |sel| > 0 {
      LookupDistinct(sel[1..], id, b);
      assert sel == [sel[0]] + sel[1..];
    }
  }

  /**
   * `handleCheckboxChange(id, checked)`: the entry for `id` is overwritten in
   * place when the key exists, and appended otherwise.
   */
  function SetChecked<K(==,!new)>(sel: seq<Entry<K>>, id: K, checked: bool): (r: seq<Entry<K>>)
    ensures id !in Ids(sel) ==> r == sel + [Entry(id, checked)]
    ensures id in Ids(sel) ==> Ids(r) == Ids(sel)
    ensures Lookup(r, id) == Some(checked)
    decreases |sel|
  {
    if |sel| == 0 then [Entry(id, checked)]
    else
      var tail := sel[1..];
      assert sel == [sel[0]] + tail;
      IdsCons(sel[0], tail);
      if sel[0].id == id then
        IdsCons(Entry(id, checked), tail);
        [Entry(id, checked)] + tail
      else
        var rest := SetChecked(tail, id, checked);
        IdsCons(sel[0], rest);
        [sel[0]] + rest
  }

  /** The keys of a list with one more entry in front. */
  lemma IdsCons<K(!new)>(e: Entry<K>, sel: seq<Entry<K>>)
    ensures Ids([e] + sel) == [e.id] + Ids(sel)
  {
    assert ([e] + sel)[1..] == sel;
  }

  /** The `i`th key is the id of the `i`th entry. */
  lemma {:induction false} IdsIndex<K(!new)>(sel: seq<Entry<K>>, i: nat)
    requires i < |sel|
    ensures Ids(sel)[i] == sel[i].id
    decreases i
  {
    if i > 0 {
      IdsIndex(sel[1..], i - 1);
    }
  }

  /** Distinct keys, stated on the entries, is the same as the key list having no duplicates. */
  lemma DistinctIdsAgree<K(!new)>(sel: seq<Entry<K>>)
    ensures DistinctIds(sel) <==> NoDuplicates(Ids(sel))
  {
    forall i | 0 <= i < |sel|
      ensures Ids(sel)[i] == sel[i].id
    {
      IdsIndex(sel, i);
    }
  }

  /** A checkbox change keeps every key occurring once. */
  lemma {:induction false} SetCheckedKeepsDistinct<K(!new)>(sel: seq<Entry<K>>, id: K, checked: bool)
    requires DistinctIds(sel)
    ensures DistinctIds(SetChecked(sel, id, checked))
  {
    var r := SetChecked(sel, id, checked);
    if id !in Ids(sel) {
      forall i | 0 <= i < |sel|
        ensures sel[i].id != id
      {
        IdsIndex(sel, i);
      }
      assert forall i :: 0 <= i < |sel| ==> r[i] == sel[i];
    } else {
      forall i | 0 <= i < |r|
        ensures r[i].id == sel[i].id
      {
        IdsIndex(sel, i);
        IdsIndex(r, i);
      }
    }
  }

  /** The object after a series of checkbox changes, starting from `useState({})`. */
  function ApplyChanges<K(==,!new)>(changes: seq<(K, bool)>): (sel: seq<Entry<K>>)
    ensures forall i :: 0 <= i < |changes| ==> Lookup(sel, changes[i].0).Some?
    ensures |changes| > 0 ==> Lookup(sel, changes[|changes| - 1].0) == Some(changes[|changes| - 1].1)
    decreases |changes|
  {
    if |changes| == 0 then []
    else
      var prev := ApplyChanges(changes[..|changes| - 1]);
      var last := changes[|changes| - 1];
      var r := SetChecked(prev, last.0, last.1);
      forall i | 0 <= i < |changes| - 1
        ensures Lookup(r, changes[i].0).Some?
      {
        assert changes[i] == changes[..|changes| - 1][i];
        if changes[i].0 != last.0 {
          SetCheckedOtherKeys(prev, last.0, last.1, changes[i].0);
        }
      }
      r
  }

  /** Only ids that some change named become keys. */
  lemma {:induction false} ApplyChangesOnlyChanged<K(!new)>(changes: seq<(K, bool)>, k: K)
    requires Lookup(ApplyChanges(changes), k).Some?
    ensures exists i :: 0 <= i < |changes| && changes[i].0 == k
    decreases |changes|
  {
    if |changes| > 0 {
      var init := changes[..|changes| - 1];
      var last := changes[|changes| - 1];
      if last.0 != k {
        SetCheckedOtherKeys(ApplyChanges(init), last.0, last.1, k);
        ApplyChangesOnlyChanged(init, k);
        var i :| 0 <= i < |init| && init[i].0 == k;
        assert changes[i] == init[i];
      }
    }
  }

  /** Every id holds the flag of its own latest change. */
  lemma {:induction false} ApplyChangesLatest<K(!new)>(changes: seq<(K, bool)>, i: nat)
    requires i < |changes|
    requires forall j :: i < j < |changes| ==> changes[j].0 != changes[i].0
    ensures Lookup(ApplyChanges(changes), changes[i].0) == Some(changes[i].1)
    decreases |changes|
  {
    if i < |changes| - 1 {
      var init := changes[..|changes| - 1];
      var last := changes[|changes| - 1];
      SetCheckedOtherKeys(ApplyChanges(init), last.0, last.1, changes[i].0);
      assert init[i] == changes[i];
      assert forall j :: i < j < |init| ==> init[j] == changes[j];
      ApplyChangesLatest(init, i);
    }
  }

  /** Every object the wizard builds has distinct keys. */
  lemma {:induction false} ApplyChangesDistinct<K(!new)>(changes: seq<(K, bool)>)
    ensures DistinctIds(ApplyChanges(changes))
    decreases |changes|
  {
    if |changes| > 0 {
      var init := changes[..|changes| - 1];
      ApplyChangesDistinct(init);
      SetCheckedKeepsDistinct(ApplyChanges(init), changes[|changes| - 1].0, changes[|changes| - 1].1);
    }
  }

  /** A checkbox change leaves the flag of every other key as it was. */
  lemma {:induction false} SetCheckedOtherKeys<K(!new)>(sel: seq<Entry<K>>, id: K, checked: bool, other: K)
    requires other != id
    ensures Lookup(SetChecked(sel, id, checked), other) == Lookup(sel, other)
    decreases |sel|
  {
    if |sel| > 0 && sel[0].id != id {
      SetCheckedOtherKeys(sel[1..], id, checked, other);
      assert SetChecked(sel, id, checked)[1..] == SetChecked(sel[1..], id, checked);
    }
  }

  /** A second change of the same checkbox overrides the first. */
  lemma {:induction false} SetCheckedLastWins<K(!new)>(sel: seq<Entry<K>>, id: K, first: bool, second: bool)
    ensures SetChecked(SetChecked(sel, id, first), id, second) == SetChecked(sel, id, second)
    decreases |sel|
  {
    if |sel| > 0 && sel[0].id != id {
      SetCheckedLastWins(sel[1..], id, first, second);
      var once := SetChecked(sel, id, first);
      assert once == [sel[0]] + SetChecked(sel[1..], id, first);
      assert once[1..] == SetChecked(sel[1..], id, first);
    }
  }

  /**
   * `selectedItemIds`: the keys whose flag is `true`, in key order
   * (`Object.entries(...).filter(...).map(...)`).
   */
  function SelectedIds<K(==,!new)>(sel: seq<Entry<K>>): (ids: seq<K>)
    ensures IsSubsequence(ids, Ids(sel))
    ensures forall id :: id in ids <==> Entry(id, true) in sel
    ensures DistinctIds(sel) ==> NoDuplicates(ids)
    decreases |sel|
  {
    if |sel| == 0 then []
    else
      var rest := SelectedIds(sel[1..]);
      assert Ids(sel) == [sel[0].id] + Ids(sel[1..]);
      assert Ids(sel)[1..] == Ids(sel[1..]);
      assert sel == [sel[0]] + sel[1..];
      if sel[0].checked then
        [sel[0].id] + rest
      else rest
  }

  /** `Object.values(selectedItems).some((v) => v === true)`. */
  function HasSelectedItems<K(==,!new)>(sel: seq<Entry<K>>): (b: bool)
    ensures b <==> exists i :: 0 <= i < |sel| && sel[i].checked
    decreases |sel|
  {
    if |sel| == 0 then false
    else if sel[0].checked then true
    else
      assert forall i :: 1 <= i < |sel| ==> sel[i] == sel[1..][i - 1];
      HasSelectedItems(sel[1..])
  }

  /** Some flag is set exactly when the selected-id list is non-empty. */
  lemma HasSelectedIffSelectedIds<K(!new)>(sel: seq<Entry<K>>)
    ensures HasSelectedItems(sel) <==> SelectedIds(sel) != []
  {
    if HasSelectedItems(sel) {
      var i :| 0 <= i < |sel| && sel[i].checked;
      assert Entry(sel[i].id, true) == sel[i];
      assert Entry(sel[i].id, true) in sel;
      assert sel[i].id in SelectedIds(sel);
    }
    if SelectedIds(sel) != [] {
      var x := SelectedIds(sel)[0];
      assert Entry(x, true) in sel;
      var i :| 0 <= i < |sel| && sel[i] == Entry(x, true);
      assert sel[i].checked;
    }
  }

  /** Selected ids distribute over concatenation: extraction keeps key order. */
  lemma {:induction false} SelectedIdsAppend<K(!new)>(a: seq<Entry<K>>, b: seq<Entry<K>>)
    ensures SelectedIds(a + b) == SelectedIds(a) + SelectedIds(b)
    decreases |a|
  {
    if |a| > 0 {
      SelectedIdsAppend(a[1..], b);
      assert (a + b)[1..] == a[1..] + b;
      assert (a + b)[0] == a[0];
    } else {
      assert a + b == b;
    }
  }

  /** Checking a box that was never touched appends its id to the selected ids. */
  lemma CheckNewId<K(!new)>(sel: seq<Entry<K>>, id: K)
    requires id !in Ids(sel)
    ensures SelectedIds(SetChecked(sel, id, true)) == SelectedIds(sel) + [id]
  {
    assert SetChecked(sel, id, true) == sel + [Entry(id, true)];
    SelectedIdsAppend(sel, [Entry(id, true)]);
    assert [Entry(id, true)][1..] == [];
    assert SelectedIds([Entry(id, true)]) == [id];
  }

  /** Unchecking a box removes its id, and only its id, from the selected ids. */
  lemma {:induction false} UncheckRemoves<K(!new)>(sel: seq<Entry<K>>, id: K)
    requires DistinctIds(sel)
    ensures SelectedIds(SetChecked(sel, id, false)) == Filter((k: K) => k != id, SelectedIds(sel))
    decreases |sel|
  {
    if |sel| > 0 {
      var tail := sel[1..];
      var r := SetChecked(sel, id, false);
      if sel[0].id == id {
        assert r == [Entry(id, false)] + tail;
        assert r[1..] == tail;
        assert SelectedIds(r) == SelectedIds(tail);
        assert id !in SelectedIds(tail);
        FilterKeepsAll((k: K) => k != id, SelectedIds(tail));
        if sel[0].checked {
          var s := SelectedIds(sel);
          assert s == [id] + SelectedIds(tail);
          assert s[1..] == SelectedIds(tail);
        }
      } else {
        UncheckRemoves(tail, id);
        assert r == [sel[0]] + SetChecked(tail, id, false);
        assert r[1..] == SetChecked(tail, id, false);
        if sel[0].checked {
          var s := SelectedIds(sel);
          assert s == [sel[0].id] + SelectedIds(tail);
          assert s[1..] == SelectedIds(tail);
        }
      }
    }
  }
}
