/**
  The body-base catalogue edited in the settings dialog
  (apps/web/src/components/SettingsModal.tsx): adding a base from the text
  field, and removing a base together with every avatar assignment that
  points at it.
 */
module Catalogue {
  import opened Text
  import opened Types

  /** The dialog's view of the state: the base list, the avatar assignments and the text field. */
  datatype Settings = Settings(bases: seq<BodyBase>, assignment: AvatarBaseMap, input: string)

  function Ids(bases: seq<BodyBase>): set<string> {
    set b | b in bases :: b.id
  }

  /** No two bases share an id. */
  predicate UniqueIds(bases: seq<BodyBase>) {
    forall i, j :: 0 <= i < j < |bases| ==> bases[i].id != bases[j].id
  }

  /** Every assignment points at a base that exists. */
  predicate NoDangling(st: Settings) {
    forall a :: a in st.assignment ==> st.assignment[a] in Ids(st.bases)
  }

  /**
    `add()`: a name that is empty once trimmed is ignored; otherwise a base
    with the fresh id `newId` (the value `uid()` would produce) and the
    trimmed name goes at the end of the list, and the text field is cleared.
   */
  function Add(st: Settings, newId: string): (r: Settings)
    ensures Trim(st.input) == "" ==> r == st
    ensures Trim(st.input) != "" ==>
      && |r.bases| == |st.bases| + 1
      && r.bases[..|st.bases|] == st.bases
      && r.bases[|st.bases|] == BodyBase(newId, Trim(st.input))
      && r.assignment == st.assignment && r.input == ""
  {
    var name := Trim(st.input);
    if name == "" then st
    else st.(bases := st.bases + [BodyBase(newId, name)], input := "")
  }

  /** `prev.filter(b => b.id !== id)`. */
  function Without(bases: seq<BodyBase>, id: string): (r: seq<BodyBase>)
    ensures forall i :: 0 <= i < |r| ==> r[i].id != id
    ensures forall b: BodyBase :: b.id != id ==> multiset(r)[b] == multiset(bases)[b]
    ensures forall b: BodyBase :: b in r ==> b in bases
  {
    if bases == [] then []
    else
      var rest := Without(bases[1..], id);
      assert bases == [bases[0]] + bases[1..];
      if bases[0].id == id then rest else [bases[0]] + rest
  }

  /** Filtering distributes over concatenation, so the kept bases stay in their original order. */
  lemma {:induction false} WithoutConcat(a: seq<BodyBase>, b: seq<BodyBase>, id: string)
    ensures Without(a + b, id) == Without(a, id) + Without(b, id)
    decreases |a|
  {
    if a == [] {
      assert a + b == b;
    } else {
      assert (a + b)[1..] == a[1..] + b;
      WithoutConcat(a[1..], b, id);
    }
  }

  /** The assignments left once every entry pointing at `id` is deleted. */
  function Unassign(m: AvatarBaseMap, id: string): (r: AvatarBaseMap)
    ensures forall a :: a in r ==> r[a] != id
    ensures forall a :: a in m && m[a] != id ==> a in r && r[a] == m[a]
    ensures forall a :: a in r ==> a in m
  {
    map a | a in m && m[a] != id :: m[a]
  }

  /**
    The deletion loop of `remove`: walks the avatar ids of a copy of the
    map and deletes each entry whose value is `id`.
   */
  method UnassignLoop(m: AvatarBaseMap, id: string) returns (next: AvatarBaseMap)
    ensures next == Unassign(m, id)
  {
    next := m;
    var todo := m.Keys;
    while todo != {}
      invariant todo <= m.Keys
      invariant forall a :: a in next <==> a in m && (a in todo || m[a] != id)
      invariant forall a :: a in next ==> next[a] == m[a]
      decreases todo
    {
      var a :| a in todo;
      if next[a] == id {
        next := next - {a};
      }
      todo := todo - {a};
    }
  }

  /** `remove(id)`: the base list without `id`, and the assignments without any entry pointing at it. */
  function Remove(st: Settings, id: string): (r: Settings)
    ensures id !in Ids(r.bases)
    ensures forall a :: a in r.assignment ==> r.assignment[a] != id
    ensures forall a :: a in st.assignment && st.assignment[a] != id ==> a in r.assignment && r.assignment[a] == st.assignment[a]
    ensures forall b: BodyBase :: b.id != id ==> multiset(r.bases)[b] == multiset(st.bases)[b]
    ensures r.bases == Without(st.bases, id) && r.assignment == Unassign(st.assignment, id)
    ensures r.assignment.Keys <= st.assignment.Keys
    ensures r.input == st.input
  {
    Settings(Without(st.bases, id), Unassign(st.assignment, id), st.input)
  }

  /** Adding under a fresh id keeps ids unique. */
  lemma AddKeepsIdsUnique(st: Settings, newId: string)
    requires UniqueIds(st.bases) && newId !in Ids(st.bases)
    ensures UniqueIds(Add(st, newId).bases)
  {
    var r := Add(st, newId).bases;
    if Trim(st.input) != "" {
      forall i, j | 0 <= i < j < |r|
        ensures r[i].id != r[j].id
      {
        if j == |st.bases| {
          assert r[i] == st.bases[i];
          assert r[i] in st.bases;
        } else {
          assert r[i] == st.bases[i] && r[j] == st.bases[j];
        }
      }
    }
  }

  /** Removing keeps ids unique. */
  lemma {:induction false} WithoutKeepsIdsUnique(bases: seq<BodyBase>, id: string)
    requires UniqueIds(bases)
    ensures UniqueIds(Without(bases, id))
  {
    if bases != [] {
      UniqueSplit(bases);
      WithoutKeepsIdsUnique(bases[1..], id);
      if bases[0].id != id {
        WithoutIds(bases[1..], id);
        UniqueCons(bases[0], Without(bases[1..], id));
      }
    }
  }

  lemma UniqueSplit(bases: seq<BodyBase>)
    requires UniqueIds(bases) && bases != []
    ensures UniqueIds(bases[1..]) && bases[0].id !in Ids(bases[1..])
  {
  }

  lemma UniqueCons(x: BodyBase, r: seq<BodyBase>)
    requires UniqueIds(r) && x.id !in Ids(r)
    ensures UniqueIds([x] + r)
  {
    var s := [x] + r;
    forall i, j | 0 <= i < j < |s|
      ensures s[i].id != s[j].id
    {
      assert s[j] == r[j - 1];
      if i == 0 {
        assert r[j - 1] in r;
      } else {
        assert s[i] == r[i - 1];
      }
    }
  }

  /** A base survives removal exactly when its id is not the removed one. */
  lemma WithoutIds(bases: seq<BodyBase>, id: string)
    ensures Ids(Without(bases, id)) == Ids(bases) - {id}
  {
    var r := Without(bases, id);
    forall x | x in Ids(bases) - {id}
      ensures x in Ids(r)
    {
      var b :| b in bases && b.id == x;
      assert multiset(r)[b] == multiset(bases)[b];
    }
  }

  /** Removal never leaves an assignment pointing at a missing base. */
  lemma RemoveKeepsNoDangling(st: Settings, id: string)
    requires NoDangling(st)
    ensures NoDangling(Remove(st, id))
  {
    WithoutIds(st.bases, id);
  }

  /** Removing twice is removing once. */
  lemma RemoveIdempotent(st: Settings, id: string)
    ensures Remove(Remove(st, id), id) == Remove(st, id)
  {
    var once := Remove(st, id);
    WithoutUnchanged(once.bases, id);
    assert Unassign(once.assignment, id) == once.assignment;
  }

  /** Filtering out an id that no base has changes nothing. */
  lemma {:induction false} WithoutUnchanged(bases: seq<BodyBase>, id: string)
    requires id !in Ids(bases)
    ensures Without(bases, id) == bases
  {
    if bases != [] {
      assert bases[0] in bases;
      assert Ids(bases[1..]) <= Ids(bases) by {
        forall x | x in Ids(bases[1..]) ensures x in Ids(bases) {
          var b :| b in bases[1..] && b.id == x;
          assert b in bases;
        }
      }
      WithoutUnchanged(bases[1..], id);
      assert [bases[0]] + bases[1..] == bases;
    }
  }

  /**
    Removing a base just added under a fresh id restores the list; when no
    assignment dangled, the assignments are restored too (the text field
    stays cleared).
   */
  lemma RemoveUndoesAdd(st: Settings, newId: string)
    requires newId !in Ids(st.bases) && Trim(st.input) != ""
    ensures Remove(Add(st, newId), newId).bases == st.bases
    ensures NoDangling(st) ==> Remove(Add(st, newId), newId).assignment == st.assignment
  {
    var added := Add(st, newId);
    var nb := BodyBase(newId, Trim(st.input));
    assert added.bases == st.bases + [nb];
    WithoutConcat(st.bases, [nb], newId);
    WithoutUnchanged(st.bases, newId);
    assert Without([nb], newId) == [];
    assert st.bases + [] == st.bases;
    if NoDangling(st) {
      UnassignAbsent(st.assignment, newId);
    }
  }

  /** Unassigning an id nothing points at changes nothing. */
  lemma UnassignAbsent(m: AvatarBaseMap, id: string)
    requires forall a :: a in m ==> m[a] != id
    ensures Unassign(m, id) == m
  {
  }
}
