/** `areJsonValuesEqual` on finite JSON trees. */
module JsonEqual {

  /** `Json::Value`: the numeric types are told apart, and an object keeps one value for each member name. */
  datatype Json =
    | Null
    | Int(i: int)
    | UInt(u: nat)
    | Real(r: real)
    | String(s: string)
    | Bool(b: bool)
    | Array(items: seq<Json>)
    | Object(members: map<string, Json>)

  predicate SameType(a: Json, b: Json) {
    match a
    case Null => b.Null?
    case Int(_) => b.Int?
    case UInt(_) => b.UInt?
    case Real(_) => b.Real?
    case String(_) => b.String?
    case Bool(_) => b.Bool?
    case Array(_) => b.Array?
    case Object(_) => b.Object?
  }

  /** What makes the comparison of objects symmetric: as many members, and every one of the first is in the second. */
  lemma SameSizeSubset<T>(a: set<T>, b: set<T>)
    requires a <= b && |a| == |b|
    ensures a == b
  {
    assert |b - a| == |b| - |a|;
  }

  /** Terminates on every tree, and is true exactly for equal trees. */
  method AreJsonValuesEqual(val1: Json, val2: Json) returns (equal: bool)
    ensures equal <==> val1 == val2
    decreases val1
  {
    if !SameType(val1, val2) { return false; }

    if val1.Object? {
      if |val1.members| != |val2.members| { return false; }
      var todo := val1.members.Keys;
      while todo != {}
        invariant todo <= val1.members.Keys
        invariant forall k :: k in val1.members.Keys - todo ==> k in val2.members && val1.members[k] == val2.members[k]
        decreases |todo|
      {
        var key :| key in todo;
        if key !in val2.members { return false; }
        var same := AreJsonValuesEqual(val1.members[key], val2.members[key]);
        if !same { return false; }
        todo := todo - {key};
      }
      SameSizeSubset(val1.members.Keys, val2.members.Keys);
      assert val1.members == val2.members;
      return true;
    }

    if val1.Array? {
      if |val1.items| != |val2.items| { return false; }
      var i := 0;
      while i < |val1.items|
        invariant 0 <= i <= |val1.items| && val1.items[..i] == val2.items[..i]
      {
        var same := AreJsonValuesEqual(val1.items[i], val2.items[i]);
        if !same { return false; }
        i := i + 1;
      }
      return true;
    }

    return val1 == val2;
  }
}
