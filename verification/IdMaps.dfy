/** Id maps, as a merge of deletions hands them to the attribute indexes (include/filter/attribute.h):
    old id to new id for every vector that survives. */
module IdMaps {

  ghost predicate Injective(idMap: map<nat, nat>) {
    forall i, j | i in idMap && j in idMap && idMap[i] == idMap[j] :: i == j
  }

  /** The survivors under their new ids. */
  ghost function Survivors<T>(m: map<nat, T>, idMap: map<nat, nat>): map<nat, T>
    requires Injective(idMap)
  {
    map id | id in idMap && id in m :: idMap[id] := m[id]
  }

  /** What a merge leaves: it takes an empty id map for the identity, which is how a merge without
      deletions is asked for. */
  ghost function Renamed<T>(m: map<nat, T>, idMap: map<nat, nat>): map<nat, T>
    requires Injective(idMap)
  {
    if idMap == map[] then m else Survivors(m, idMap)
  }

  /** So a merge keeps exactly the survivors if and only if there are some or nothing was stored. */
  lemma KeepsSurvivorsIff<T>(m: map<nat, T>, idMap: map<nat, nat>)
    requires Injective(idMap)
    ensures Renamed(m, idMap) == Survivors(m, idMap) <==> idMap != map[] || m == map[]
  {
    if idMap == map[] {
      assert Survivors(m, idMap) == map[];
    }
  }

  /** One vector, deleted: no survivor, and yet it stays. */
  lemma NoSurvivorStays()
    ensures var m: map<nat, nat> := map[0 := 7]; Survivors(m, map[]) == map[] && Renamed(m, map[]) == m && m != map[]
  {
    var m: map<nat, nat> := map[0 := 7];
    assert Survivors(m, map[]) == map[];
    assert 0 in m;
  }

  /** One value per vector. */
  ghost function Numbered<T>(rows: seq<T>): (m: map<nat, T>)
    ensures forall i: nat :: i in m <==> i < |rows|
    ensures forall i: nat | i < |rows| :: m[i] == rows[i]
  {
    if rows == [] then map[] else Numbered(rows[..|rows| - 1])[|rows| - 1 := rows[|rows| - 1]]
  }
}
