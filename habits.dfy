/**
 The habit list and the three transforms App applies to it: appending a new
 entry (addHabit), flipping `done` on the entries with a given id (the toggle
 handler's `map`) and dropping the entries with a given id (the delete
 handler's `filter`). Ids come from the clock, so two entries can share one;
 the transforms act on every entry whose id matches.
 */
module Habits {
  import opened Text

  /** One tracked goal, as App stores it: `{ id, text, done, color }`. */
  datatype Habit = Habit(id: int, text: string, done: bool, color: string)

  /** The background classes addHabit picks a colour from. */
  const Palette: seq<string> :=
    ["bg-rose-100", "bg-sky-100", "bg-amber-100", "bg-indigo-100", "bg-emerald-100"]

  /** A slot of the palette: `Math.floor(Math.random() * colors.length)` lies in 0..4. */
  type PaletteIndex = i: nat | i < 5

  /** The ids present in the list. */
  function Ids(hs: seq<Habit>): set<int> {
    set i | 0 <= i < |hs| :: hs[i].id
  }

  /** No two entries share an id. The code does not enforce this. */
  predicate UniqueIds(hs: seq<Habit>) {
    forall i, j :: 0 <= i < j < |hs| ==> hs[i].id != hs[j].id
  }

  /** No entry's text is blank. Unlike unique ids, the handlers maintain this. */
  predicate AllNonBlank(hs: seq<Habit>) {
    forall i :: 0 <= i < |hs| ==> !IsBlank(hs[i].text)
  }

  /**
   The list after addHabit with the current input, the clock reading `id` and
   the random palette slot `colorIndex`: unchanged when the input is blank,
   else one new, not-done entry carrying the untrimmed input at the end.
   */
  function Added(hs: seq<Habit>, input: string, id: int, colorIndex: PaletteIndex): (r: seq<Habit>)
    ensures IsBlank(input) ==> r == hs
    ensures !IsBlank(input) ==> |r| == |hs| + 1 && r[..|hs|] == hs
    ensures !IsBlank(input) ==>
      r[|hs|].id == id && r[|hs|].text == input && !r[|hs|].done && r[|hs|].color in Palette
  {
    if IsBlank(input) then hs else hs + [Habit(id, input, false, Palette[colorIndex])]
  }

  /** The toggle callback for one entry: `h.id === id ? { ...h, done: !h.done } : h`. */
  function Flip(h: Habit, id: int): (r: Habit)
    ensures r.id == h.id && r.text == h.text && r.color == h.color
    ensures r.done <==> (h.done != (h.id == id))
  {
    if h.id == id then h.(done := !h.done) else h
  }

  /**
   The list after toggling `id`: same length and order, every entry whose id
   matches has `done` flipped, and nothing else changes.
   */
  function Toggled(hs: seq<Habit>, id: int): (r: seq<Habit>)
    ensures |r| == |hs|
    ensures forall i :: 0 <= i < |hs| ==>
      r[i].id == hs[i].id && r[i].text == hs[i].text && r[i].color == hs[i].color
    ensures forall i :: 0 <= i < |hs| ==> (r[i].done <==> (hs[i].done != (hs[i].id == id)))
  {
    if hs == [] then [] else [Flip(hs[0], id)] + Toggled(hs[1..], id)
  }

  /**
   The list after deleting `id`: exactly the entries whose id differs remain,
   so `id` is gone and every other id is still there.
   */
  function Deleted(hs: seq<Habit>, id: int): (r: seq<Habit>)
    ensures |r| <= |hs|
    ensures forall h :: h in r <==> h in hs && h.id != id
    ensures Ids(r) == Ids(hs) - {id}
  {
    if hs == [] then []
    else
      var rest := Deleted(hs[1..], id);
      IdsCons(hs[0], hs[1..]);
      assert [hs[0]] + hs[1..] == hs;
      if hs[0].id == id then rest
      else
        IdsCons(hs[0], rest);
        [hs[0]] + rest
  }

  /** The ids of a list with a head entry h. */
  lemma IdsCons(h: Habit, t: seq<Habit>)
    ensures Ids([h] + t) == {h.id} + Ids(t)
  {
    var l := [h] + t;
    assert l[0] == h;
    forall x | x in Ids(l) ensures x in {h.id} + Ids(t) {
      var i :| 0 <= i < |l| && l[i].id == x;
      if i > 0 { assert t[i - 1].id == x && t[i - 1].id in Ids(t); }
    }
    forall x | x in Ids(t) ensures x in Ids(l) {
      var i :| 0 <= i < |t| && t[i].id == x;
      assert l[i + 1].id == x;
    }
  }

  /** A list with head h has unique ids when its tail does and does not carry h's id. */
  lemma UniqueCons(h: Habit, t: seq<Habit>)
    ensures UniqueIds([h] + t) <==> h.id !in Ids(t) && UniqueIds(t)
  {
    var l := [h] + t;
    if UniqueIds(l) {
      forall j | 0 <= j < |t| ensures t[j].id != h.id {
        assert l[0] == h && l[j + 1] == t[j];
      }
      forall i, j | 0 <= i < j < |t| ensures t[i].id != t[j].id {
        assert l[i + 1] == t[i] && l[j + 1] == t[j];
      }
    }
    if h.id !in Ids(t) && UniqueIds(t) {
      forall i, j | 0 <= i < j < |l| ensures l[i].id != l[j].id {
        assert l[j] == t[j - 1];
        if i > 0 { assert l[i] == t[i - 1]; }
      }
    }
  }

  // ----- toggle -----

  /** Toggling the same id twice gives back the original list. */
  lemma {:induction false} ToggledTwice(hs: seq<Habit>, id: int)
    ensures Toggled(Toggled(hs, id), id) == hs
  {
    if hs != [] {
      ToggledTwice(hs[1..], id);
      assert Toggled(hs, id)[1..] == Toggled(hs[1..], id);
    }
  }

  /** Toggling an id no entry carries changes nothing. */
  lemma ToggledAbsent(hs: seq<Habit>, id: int)
    requires id !in Ids(hs)
    ensures Toggled(hs, id) == hs
  {
    var r := Toggled(hs, id);
    forall i | 0 <= i < |hs| ensures r[i] == hs[i] {
      assert hs[i].id in Ids(hs);
    }
  }

  /** Toggling keeps the set of ids, and uniqueness with it. */
  lemma ToggledKeepsIds(hs: seq<Habit>, id: int)
    ensures Ids(Toggled(hs, id)) == Ids(hs)
    ensures UniqueIds(hs) ==> UniqueIds(Toggled(hs, id))
  {
    var r := Toggled(hs, id);
    forall x | x in Ids(hs) ensures x in Ids(r) {
      var i :| 0 <= i < |hs| && hs[i].id == x;
      assert r[i].id == x;
    }
  }

  /** With unique ids, toggling the id at position k flips that entry alone. */
  lemma ToggledUnique(hs: seq<Habit>, k: nat)
    requires UniqueIds(hs) && k < |hs|
    ensures Toggled(hs, hs[k].id) == hs[k := hs[k].(done := !hs[k].done)]
  {
  }

  // ----- delete -----

  /** Deleting distributes over concatenation: the survivors keep their order. */
  lemma {:induction false} DeletedAppend(a: seq<Habit>, b: seq<Habit>, id: int)
    ensures Deleted(a + b, id) == Deleted(a, id) + Deleted(b, id)
  {
    if a == [] {
      assert a + b == b;
    } else {
      assert (a + b)[1..] == a[1..] + b;
      DeletedAppend(a[1..], b, id);
    }
  }

  /** A one-entry list loses its entry exactly when the id matches. */
  lemma DeletedSingle(h: Habit, id: int)
    ensures Deleted([h], id) == if h.id == id then [] else [h]
  {
    assert [h][1..] == [];
  }

  /** Deleting an id no entry carries changes nothing. */
  lemma {:induction false} DeletedAbsent(hs: seq<Habit>, id: int)
    requires id !in Ids(hs)
    ensures Deleted(hs, id) == hs
  {
    if hs != [] {
      IdsCons(hs[0], hs[1..]);
      assert [hs[0]] + hs[1..] == hs;
      DeletedAbsent(hs[1..], id);
    }
  }

  /** A second delete of the same id is a no-op. */
  lemma DeletedTwice(hs: seq<Habit>, id: int)
    ensures Deleted(Deleted(hs, id), id) == Deleted(hs, id)
  {
    DeletedAbsent(Deleted(hs, id), id);
  }

  /** With unique ids, deleting a present id removes exactly one entry. */
  lemma {:induction false} DeletedUniqueLength(hs: seq<Habit>, id: int)
    requires UniqueIds(hs) && id in Ids(hs)
    ensures |Deleted(hs, id)| == |hs| - 1
  {
    IdsCons(hs[0], hs[1..]);
    UniqueCons(hs[0], hs[1..]);
    assert [hs[0]] + hs[1..] == hs;
    if hs[0].id == id {
      DeletedAbsent(hs[1..], id);
    } else {
      DeletedUniqueLength(hs[1..], id);
    }
  }

  /** Deleting keeps ids unique. */
  lemma {:induction false} DeletedKeepsUnique(hs: seq<Habit>, id: int)
    requires UniqueIds(hs)
    ensures UniqueIds(Deleted(hs, id))
  {
    if hs != [] {
      UniqueCons(hs[0], hs[1..]);
      assert [hs[0]] + hs[1..] == hs;
      DeletedKeepsUnique(hs[1..], id);
      if hs[0].id != id {
        UniqueCons(hs[0], Deleted(hs[1..], id));
      }
    }
  }

  // ----- add -----

  /** Adding with an id not yet in the list keeps ids unique. */
  lemma AddedKeepsUnique(hs: seq<Habit>, input: string, id: int, colorIndex: PaletteIndex)
    requires UniqueIds(hs) && id !in Ids(hs)
    ensures UniqueIds(Added(hs, input, id, colorIndex))
  {
    if !IsBlank(input) {
      forall i | 0 <= i < |hs| ensures hs[i].id != id {
        assert hs[i].id in Ids(hs);
      }
    }
  }

  // ----- non-blank texts -----

  /** Adding, whatever the input, never brings in a blank entry. */
  lemma AddedKeepsNonBlank(hs: seq<Habit>, input: string, id: int, colorIndex: PaletteIndex)
    requires AllNonBlank(hs)
    ensures AllNonBlank(Added(hs, input, id, colorIndex))
  {
  }

  /** Toggling keeps every text, so no entry becomes blank. */
  lemma ToggledKeepsNonBlank(hs: seq<Habit>, id: int)
    requires AllNonBlank(hs)
    ensures AllNonBlank(Toggled(hs, id))
  {
  }

  /** Deleting only drops entries, so no entry becomes blank. */
  lemma DeletedKeepsNonBlank(hs: seq<Habit>, id: int)
    requires AllNonBlank(hs)
    ensures AllNonBlank(Deleted(hs, id))
  {
    var r := Deleted(hs, id);
    forall i | 0 <= i < |r| ensures !IsBlank(r[i].text) {
      assert r[i] in r;
      var j :| 0 <= j < |hs| && hs[j] == r[i];
    }
  }

  /** One call of addHabit: its input, clock reading and palette slot. */
  datatype AddCall = AddCall(input: string, id: int, colorIndex: PaletteIndex)

  /** The list after a run of addHabit calls, each on the input it was given. */
  function AddedAll(hs: seq<Habit>, calls: seq<AddCall>): seq<Habit>
    decreases |calls|
  {
    if calls == [] then hs
    else AddedAll(Added(hs, calls[0].input, calls[0].id, calls[0].colorIndex), calls[1..])
  }

  /** How many of the calls had non-blank input. */
  function NonBlankCount(calls: seq<AddCall>): nat {
    if calls == [] then 0
    else (if IsBlank(calls[0].input) then 0 else 1) + NonBlankCount(calls[1..])
  }

  /** A run of adds grows the list by the number of non-blank inputs, keeping what was there. */
  lemma {:induction false} AddedAllLength(hs: seq<Habit>, calls: seq<AddCall>)
    ensures |AddedAll(hs, calls)| == |hs| + NonBlankCount(calls)
    ensures hs <= AddedAll(hs, calls)
    decreases |calls|
  {
    if calls != [] {
      var next := Added(hs, calls[0].input, calls[0].id, calls[0].colorIndex);
      var rest := calls[1..];
      AddedAllLength(next, rest);
      assert hs <= next;
    }
  }
}
