/**
 * src/utils/mapToType.js: the registry builder that maps each class's static
 * `type` tag to the class, used by the node, edge and agent registries.
 */
module TypeMaps {
  import opened Results

  /** A static `type` field: `None` when the class declares none (`undefined`). */
  type Tag = Option<string>

  /** The object key a tag becomes: JavaScript turns `undefined` into "undefined". */
  function PropertyKey(t: Tag): string
  {
    if t.None? then "undefined" else t.value
  }

  /**
   * `mapToType(classes)` as a fold: one key per distinct tag, every value is
   * an element of the input, and when several classes share a tag the last
   * one in the list is the one stored.
   */
  function MapToType<C(==)>(classes: seq<C>, typeOf: C -> Tag): (m: map<string, C>)
    ensures m.Keys == set c | c in classes :: PropertyKey(typeOf(c))
    ensures forall k :: k in m ==> m[k] in classes && PropertyKey(typeOf(m[k])) == k
    decreases |classes|
  {
    if classes == [] then map[]
    else
      var n := |classes| - 1;
      var m0 := MapToType(classes[..n], typeOf);
      assert classes == classes[..n] + [classes[n]];
      m0[PropertyKey(typeOf(classes[n])) := classes[n]]
  }

  /**
   * When several classes share a tag, the later one wins: the map holds, for
   * each tag, the last class in the list that carries it.
   */
  lemma {:induction false} LaterClassWins<C>(classes: seq<C>, typeOf: C -> Tag, i: nat)
    requires i < |classes|
    requires forall j :: i < j < |classes| ==> PropertyKey(typeOf(classes[j])) != PropertyKey(typeOf(classes[i]))
    ensures MapToType(classes, typeOf)[PropertyKey(typeOf(classes[i]))] == classes[i]
    decreases |classes|
  {
    var n := |classes| - 1;
    var key := PropertyKey(typeOf(classes[i]));
    assert MapToType(classes, typeOf) == MapToType(classes[..n], typeOf)[PropertyKey(typeOf(classes[n])) := classes[n]];
    if i < n {
      var prefix := classes[..n];
      assert prefix[i] == classes[i];
      assert PropertyKey(typeOf(classes[n])) != key;
      forall j | i < j < |prefix|
        ensures PropertyKey(typeOf(prefix[j])) != PropertyKey(typeOf(prefix[i]))
      {
        assert prefix[j] == classes[j];
      }
      LaterClassWins(prefix, typeOf, i);
    }
  }

  /** The loop of `mapToType`, assigning `classMap[cls.type] = cls` in list order. */
  method BuildTypeMap<C(==)>(classes: seq<C>, typeOf: C -> Tag) returns (classMap: map<string, C>)
    ensures classMap == MapToType(classes, typeOf)
  {
    classMap := map[];
    for i := 0 to |classes|
      invariant classMap == MapToType(classes[..i], typeOf)
    {
      assert classes[..i + 1][..i] == classes[..i];
      classMap := classMap[PropertyKey(typeOf(classes[i])) := classes[i]];
    }
    assert classes[..|classes|] == classes;
  }
}
