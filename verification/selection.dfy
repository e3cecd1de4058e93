/** The manage-bowlers dialog: the working selection of directory bowlers for a tournament. */
module Selection {
  import opened Wrappers
  import opened Roster
  import opened JsArray

  /** The ids of a selection. */
  function Ids(sel: seq<Bowler>): (ids: set<int>)
    ensures forall b :: b in sel ==> b.id in ids
    ensures forall id :: id in ids ==> exists b :: b in sel && b.id == id
  {
    set b | b in sel :: b.id
  }

  /** No bowler id occurs twice. */
  predicate IdsDistinct(sel: seq<Bowler>) {
    forall i, j :: 0 <= i < j < |sel| ==> sel[i].id != sel[j].id
  }

  /** A selection has as many distinct ids as bowlers exactly when no id repeats. */
  lemma {:induction false} IdsCountDistinct(sel: seq<Bowler>)
    ensures |Ids(sel)| <= |sel|
    ensures |Ids(sel)| == |sel| <==> IdsDistinct(sel)
  {
    if |sel| > 0 {
      var n := |sel| - 1;
      var p, x := sel[..n], sel[n];
      IdsCountDistinct(p);
      assert sel == p + [x];
      IdsSnoc(p, x);
      DistinctSnoc(p, x);
      var before := Ids(p);
      if x.id in before {
        assert before + {x.id} == before;
      } else {
        assert |before + {x.id}| == |before| + 1;
      }
    }
  }

  lemma IdsSnoc(p: seq<Bowler>, x: Bowler)
    ensures Ids(p + [x]) == Ids(p) + {x.id}
  {
    assert forall b :: b in p + [x] <==> b in p || b == x;
  }

  lemma DistinctSnoc(p: seq<Bowler>, x: Bowler)
    ensures IdsDistinct(p + [x]) <==> IdsDistinct(p) && x.id !in Ids(p)
  {
    var sel := p + [x];
    var n := |p|;
    if x.id in Ids(p) {
      var b :| b in p && b.id == x.id;
      var i :| 0 <= i < n && p[i] == b;
      assert sel[i].id == sel[n].id;
    } else if IdsDistinct(p) {
      forall i, j | 0 <= i < j < |sel| ensures sel[i].id != sel[j].id {
        assert sel[i] == p[i] && p[i] in p;
      }
    }
    if IdsDistinct(sel) {
      forall i, j | 0 <= i < j < n ensures p[i].id != p[j].id {
        assert sel[i] == p[i] && sel[j] == p[j];
      }
    }
  }

  /** `bowlerDatabase.find(b => b.id === id)`. */
  function FindBowler(db: seq<Bowler>, id: int): (r: Option<Bowler>)
    ensures r.Some? ==> r.value in db && r.value.id == id
    ensures r.None? ==> forall b :: b in db ==> b.id != id
    ensures r.Some? ==> exists i :: 0 <= i < |db| && db[i] == r.value && forall j :: 0 <= j < i ==> db[j].id != id
  {
    var i := FindIndex(db, BowlerWithId(id));
    if i.Some? then Some(db[i.value]) else None
  }

  /** The test `b => b.id === id`. */
  function BowlerWithId(id: int): Bowler -> bool {
    (b: Bowler) => b.id == id
  }

  /** `addBowlerToSelection`: a directory bowler not yet selected is appended; an unknown
      id or an already selected one leaves the selection as it is. */
  function AddToSelection(db: seq<Bowler>, sel: seq<Bowler>, id: int): (sel': seq<Bowler>)
    ensures id in Ids(sel') <==> id in Ids(sel) || (exists b :: b in db && b.id == id)
    ensures Ids(sel') - {id} == Ids(sel) - {id}
    ensures id in Ids(sel) ==> sel' == sel
    ensures FindBowler(db, id).None? ==> sel' == sel
    ensures id !in Ids(sel) && FindBowler(db, id).Some? ==> sel' == sel + [FindBowler(db, id).value]
    ensures IdsDistinct(sel) ==> IdsDistinct(sel')
  {
    var found := FindBowler(db, id);
    if found.None? || id in Ids(sel) then sel
    else
      var sel' := sel + [found.value];
      assert found.value in sel';
      sel'
  }

  /** The predicate `b => b.id !== id`. */
  function OtherBowler(id: int): Bowler -> bool {
    (b: Bowler) => b.id != id
  }

  /** `removeBowlerFromSelection`: `selectedBowlers.filter(b => b.id !== id)`. */
  function RemoveFromSelection(sel: seq<Bowler>, id: int): (sel': seq<Bowler>)
    ensures forall b :: b in sel' <==> b in sel && b.id != id
    ensures |sel'| <= |sel|
  {
    Filter(sel, OtherBowler(id))
  }

  /** `RemoveFromSelection` is an order-preserving filter: it acts on each bowler on its own,
      keeping it exactly when its id differs, and distributes over concatenation, so the
      remaining selection keeps its order and its repetitions. */
  lemma RemoveIsFilter(x: seq<Bowler>, y: seq<Bowler>, id: int)
    ensures RemoveFromSelection(x + y, id) == RemoveFromSelection(x, id) + RemoveFromSelection(y, id)
    ensures |x| == 1 ==> RemoveFromSelection(x, id) == if x[0].id != id then x else []
  {
    FilterAppend(x, y, OtherBowler(id));
    if |x| == 1 {
      assert x == [x[0]];
      FilterSingle(x[0], OtherBowler(id));
    }
  }

  /** After removal the id is gone and every other selected id is still there. */
  lemma RemoveFromSelectionIds(sel: seq<Bowler>, id: int)
    ensures Ids(RemoveFromSelection(sel, id)) == Ids(sel) - {id}
  {
    var sel' := RemoveFromSelection(sel, id);
    forall x | x in Ids(sel) - {id} ensures x in Ids(sel') {
      var b :| b in sel && b.id == x;
      assert b in sel';
    }
  }

  /** A selection without repeated ids keeps that property under removal. */
  lemma {:induction false} RemoveKeepsDistinct(sel: seq<Bowler>, id: int)
    requires IdsDistinct(sel)
    ensures IdsDistinct(RemoveFromSelection(sel, id))
  {
    if |sel| > 0 {
      RemoveKeepsDistinct(sel[1..], id);
      var rest := RemoveFromSelection(sel[1..], id);
      if sel[0].id != id {
        forall j | 0 <= j < |rest| ensures rest[j].id != sel[0].id {
          assert rest[j] in sel[1..];
        }
        var r := [sel[0]] + rest;
        forall i, j | 0 <= i < j < |r| ensures r[i].id != r[j].id {
          if i > 0 {
            assert r[i] == rest[i - 1] && r[j] == rest[j - 1];
          }
        }
      }
    }
  }

  /** Removing a bowler that was just added restores the selection. */
  lemma {:induction false} RemoveUndoesAdd(db: seq<Bowler>, sel: seq<Bowler>, id: int)
    requires id !in Ids(sel)
    ensures RemoveFromSelection(AddToSelection(db, sel, id), id) == sel
  {
    RemoveAppend(sel, AddToSelection(db, sel, id)[|sel|..], id);
    assert AddToSelection(db, sel, id) == sel + AddToSelection(db, sel, id)[|sel|..];
    RemoveAbsent(sel, id);
  }

  /** Removing an id nobody in the selection has changes nothing. */
  lemma {:induction false} RemoveAbsent(sel: seq<Bowler>, id: int)
    requires id !in Ids(sel)
    ensures RemoveFromSelection(sel, id) == sel
  {
    NoneHasId(sel, id);
  }

  lemma NoneHasId(sel: seq<Bowler>, id: int)
    requires forall i :: 0 <= i < |sel| ==> sel[i].id != id
    ensures RemoveFromSelection(sel, id) == sel
  {
    FilterKeepsAll(sel, OtherBowler(id));
  }

  lemma RemoveAppend(a: seq<Bowler>, b: seq<Bowler>, id: int)
    requires forall x :: x in b ==> x.id == id
    ensures RemoveFromSelection(a + b, id) == RemoveFromSelection(a, id)
  {
    RemoveIsFilter(a, b, id);
    RemoveAllMatching(b, id);
    assert RemoveFromSelection(a, id) + [] == RemoveFromSelection(a, id);
  }

  lemma RemoveAllMatching(b: seq<Bowler>, id: int)
    requires forall x :: x in b ==> x.id == id
    ensures RemoveFromSelection(b, id) == []
  {
    FilterDropsAll(b, OtherBowler(id));
  }
}
