/** `flatten_json`: a nested JSON value becomes one insertion-ordered dictionary
    from key path to scalar value.

    `Flatten` follows the Python recursion: an object or array starts from an
    empty dictionary and merges in the flattening of each child with
    `dict.update`, so a later leaf on the same path overwrites the value but
    keeps the position of the first. `Leaves` is the reference: every scalar
    leaf with its path, in depth-first order, repeats included. The lemmas
    connect the two. */
module FlattenJson {
  import opened JsonValue
  import opened Decimal
  import opened OrderedDict

  /** A flattened record: key path to scalar value. */
  type Record = seq<(string, Json)>

  /** The separator `convert_to_excel` uses (the default of `flatten_json`). */
  const DefaultSep: string := "_"

  /** The key of an object member: the bare member name under an empty prefix. */
  function MemberKey(prefix: string, sep: string, name: string): string
  {
    if prefix != "" then prefix + sep + name else name
  }

  /** The key of an array element: always prefix, separator and index. */
  function ElemKey(prefix: string, sep: string, i: nat): string
  {
    prefix + sep + NatToString(i)
  }

  predicate AllScalar(r: seq<(string, Json)>)
  {
    forall e :: e in r ==> e.1.IsScalar()
  }

  function Flatten(data: Json, prefix: string, sep: string): Record
    decreases data, 1, 0
  {
    match data
    case JObj(members) => FlattenMembers(data, |members|, prefix, sep)
    case JArr(elems) => FlattenElems(data, |elems|, prefix, sep)
    case _ => [(prefix, data)]
  }

  /** The dictionary after the first `n` members of an object have been merged. */
  function FlattenMembers(data: Json, n: nat, prefix: string, sep: string): Record
    requires data.JObj? && n <= |data.members|
    decreases data, 0, n
  {
    if n == 0 then []
    else
      var member := data.members[n - 1];
      Update(FlattenMembers(data, n - 1, prefix, sep), Flatten(member.1, MemberKey(prefix, sep, member.0), sep))
  }

  /** The dictionary after the first `n` elements of an array have been merged. */
  function FlattenElems(data: Json, n: nat, prefix: string, sep: string): Record
    requires data.JArr? && n <= |data.elems|
    decreases data, 0, n
  {
    if n == 0 then []
    else
      Update(FlattenElems(data, n - 1, prefix, sep), Flatten(data.elems[n - 1], ElemKey(prefix, sep, n - 1), sep))
  }

  /** Every scalar leaf of `data` with its key path, in depth-first order. */
  function Leaves(data: Json, prefix: string, sep: string): seq<(string, Json)>
    decreases data, 1, 0
  {
    match data
    case JObj(members) => MemberLeaves(data, |members|, prefix, sep)
    case JArr(elems) => ElemLeaves(data, |elems|, prefix, sep)
    case _ => [(prefix, data)]
  }

  function MemberLeaves(data: Json, n: nat, prefix: string, sep: string): seq<(string, Json)>
    requires data.JObj? && n <= |data.members|
    decreases data, 0, n
  {
    if n == 0 then []
    else
      var member := data.members[n - 1];
      MemberLeaves(data, n - 1, prefix, sep) + Leaves(member.1, MemberKey(prefix, sep, member.0), sep)
  }

  function ElemLeaves(data: Json, n: nat, prefix: string, sep: string): seq<(string, Json)>
    requires data.JArr? && n <= |data.elems|
    decreases data, 0, n
  {
    if n == 0 then []
    else
      ElemLeaves(data, n - 1, prefix, sep) + Leaves(data.elems[n - 1], ElemKey(prefix, sep, n - 1), sep)
  }

  /** Every leaf is a scalar whose path extends the prefix. Past an array, or
      past an object under a non-empty prefix, the path extends the prefix
      followed by the separator. */
  lemma {:induction false} LeavesShape(data: Json, prefix: string, sep: string)
    ensures AllScalar(Leaves(data, prefix, sep))
    ensures forall e :: e in Leaves(data, prefix, sep) ==> prefix <= e.0
    ensures data.JArr? || (data.JObj? && prefix != "") ==>
              forall e :: e in Leaves(data, prefix, sep) ==> prefix + sep <= e.0
    decreases data, 1, 0
  {
    match data
    case JObj(members) => MemberLeavesShape(data, |members|, prefix, sep);
    case JArr(elems) => ElemLeavesShape(data, |elems|, prefix, sep);
    case _ =>
  }

  lemma {:induction false} MemberLeavesShape(data: Json, n: nat, prefix: string, sep: string)
    requires data.JObj? && n <= |data.members|
    ensures AllScalar(MemberLeaves(data, n, prefix, sep))
    ensures forall e :: e in MemberLeaves(data, n, prefix, sep) ==> prefix <= e.0
    ensures prefix != "" ==> forall e :: e in MemberLeaves(data, n, prefix, sep) ==> prefix + sep <= e.0
    decreases data, 0, n
  {
    if n > 0 {
      var m := n - 1;
      var member := data.members[m];
      var key := MemberKey(prefix, sep, member.0);
      MemberLeavesShape(data, m, prefix, sep);
      LeavesShape(member.1, key, sep);
      MemberStep(data, n, prefix, sep);
      forall e | e in Leaves(member.1, key, sep)
        ensures prefix <= e.0 && (prefix != "" ==> prefix + sep <= e.0)
      {
        if prefix != "" {
          PrefixTransitive(prefix + sep, key, e.0);
        }
      }
    }
  }

  lemma {:induction false} ElemLeavesShape(data: Json, n: nat, prefix: string, sep: string)
    requires data.JArr? && n <= |data.elems|
    ensures AllScalar(ElemLeaves(data, n, prefix, sep))
    ensures forall e :: e in ElemLeaves(data, n, prefix, sep) ==> prefix + sep <= e.0
    decreases data, 0, n
  {
    if n > 0 {
      var m := n - 1;
      var key := ElemKey(prefix, sep, m);
      ElemLeavesShape(data, m, prefix, sep);
      LeavesShape(data.elems[m], key, sep);
      ElemStep(data, n, prefix, sep);
      forall e | e in Leaves(data.elems[m], key, sep)
        ensures prefix + sep <= e.0
      {
        PrefixTransitive(prefix + sep, key, e.0);
      }
    }
  }

  lemma PrefixTransitive(a: string, b: string, c: string)
    requires a <= b && b <= c
    ensures a <= c
  {
  }

  /** The flattened dictionary is `dict(Leaves(...))`: the leaves assigned one
      by one into an empty dictionary. */
  lemma {:induction false} FlattenIsDictOfLeaves(data: Json, prefix: string, sep: string)
    ensures Flatten(data, prefix, sep) == Dict(Leaves(data, prefix, sep))
    decreases data, 1, 0
  {
    match data
    case JObj(members) => MembersAreDictOfLeaves(data, |members|, prefix, sep);
    case JArr(elems) => ElemsAreDictOfLeaves(data, |elems|, prefix, sep);
    case _ => DictSingleton(prefix, data);
  }

  lemma {:induction false} MembersAreDictOfLeaves(data: Json, n: nat, prefix: string, sep: string)
    requires data.JObj? && n <= |data.members|
    ensures FlattenMembers(data, n, prefix, sep) == Dict(MemberLeaves(data, n, prefix, sep))
    decreases data, 0, n
  {
    if n > 0 {
      var m := n - 1;
      var member := data.members[m];
      var key := MemberKey(prefix, sep, member.0);
      MembersAreDictOfLeaves(data, m, prefix, sep);
      FlattenIsDictOfLeaves(member.1, key, sep);
      DictAppend(MemberLeaves(data, m, prefix, sep), Leaves(member.1, key, sep));
      MemberStep(data, n, prefix, sep);
    }
  }

  lemma {:induction false} ElemsAreDictOfLeaves(data: Json, n: nat, prefix: string, sep: string)
    requires data.JArr? && n <= |data.elems|
    ensures FlattenElems(data, n, prefix, sep) == Dict(ElemLeaves(data, n, prefix, sep))
    decreases data, 0, n
  {
    if n > 0 {
      var m := n - 1;
      var key := ElemKey(prefix, sep, m);
      ElemsAreDictOfLeaves(data, m, prefix, sep);
      FlattenIsDictOfLeaves(data.elems[m], key, sep);
      DictAppend(ElemLeaves(data, m, prefix, sep), Leaves(data.elems[m], key, sep));
      ElemStep(data, n, prefix, sep);
    }
  }

  lemma MemberStep(data: Json, n: nat, prefix: string, sep: string)
    requires data.JObj? && 0 < n <= |data.members|
    ensures
      var m := n - 1;
      var member := data.members[m];
      var key := MemberKey(prefix, sep, member.0);
      && FlattenMembers(data, n, prefix, sep) == Update(FlattenMembers(data, m, prefix, sep), Flatten(member.1, key, sep))
      && MemberLeaves(data, n, prefix, sep) == MemberLeaves(data, m, prefix, sep) + Leaves(member.1, key, sep)
  {
  }

  lemma ElemStep(data: Json, n: nat, prefix: string, sep: string)
    requires data.JArr? && 0 < n <= |data.elems|
    ensures
      var m := n - 1;
      var key := ElemKey(prefix, sep, m);
      && FlattenElems(data, n, prefix, sep) == Update(FlattenElems(data, m, prefix, sep), Flatten(data.elems[m], key, sep))
      && ElemLeaves(data, n, prefix, sep) == ElemLeaves(data, m, prefix, sep) + Leaves(data.elems[m], key, sep)
  {
  }

  /** What `flatten_json` returns, without the recursion: the leaf paths in
      depth-first order of first occurrence, each once, holding the value of
      its last leaf, and only scalar values. */
  lemma FlattenContents(data: Json, prefix: string, sep: string)
    ensures Distinct(Keys(Flatten(data, prefix, sep)))
    ensures Keys(Flatten(data, prefix, sep)) == Dedup(Keys(Leaves(data, prefix, sep)))
    ensures forall k :: Lookup(Flatten(data, prefix, sep), k) == LastValue(Leaves(data, prefix, sep), k)
    ensures forall k :: k in Keys(Flatten(data, prefix, sep)) <==> k in Keys(Leaves(data, prefix, sep))
    ensures AllScalar(Flatten(data, prefix, sep))
    ensures |Flatten(data, prefix, sep)| <= |Leaves(data, prefix, sep)|
  {
    var leaves := Leaves(data, prefix, sep);
    var empty: Record := [];
    FlattenIsDictOfLeaves(data, prefix, sep);
    DictOfPairs(leaves);
    UpdateShape(empty, leaves);
    LeavesShape(data, prefix, sep);
  }

  /** The number of keys equals the number of scalar leaves exactly when no two
      leaves share a path; then the flattened record is the leaf list itself. */
  lemma FlattenWithoutCollisions(data: Json, prefix: string, sep: string)
    ensures |Flatten(data, prefix, sep)| == |Leaves(data, prefix, sep)| <==> Distinct(Keys(Leaves(data, prefix, sep)))
    ensures Distinct(Keys(Leaves(data, prefix, sep))) ==> Flatten(data, prefix, sep) == Leaves(data, prefix, sep)
  {
    var leaves := Leaves(data, prefix, sep);
    var flat := Flatten(data, prefix, sep);
    FlattenContents(data, prefix, sep);
    DedupKeepsLengthOnlyIfDistinct(Keys(leaves));
    if Distinct(Keys(leaves)) {
      DedupOfDistinct(Keys(leaves));
      forall k
        ensures Lookup(flat, k) == Lookup(leaves, k)
      {
        LastValueOfDistinct(leaves, k);
      }
      Extensionality(flat, leaves);
    }
  }

  /** Every key extends the prefix. Under an array, or under an object reached
      through a non-empty prefix, it extends the prefix and the separator. */
  lemma FlattenKeysExtendPrefix(data: Json, prefix: string, sep: string)
    ensures forall k :: k in Keys(Flatten(data, prefix, sep)) ==> prefix <= k
    ensures data.JArr? || (data.JObj? && prefix != "") ==>
              forall k :: k in Keys(Flatten(data, prefix, sep)) ==> prefix + sep <= k
  {
    var leaves := Leaves(data, prefix, sep);
    FlattenContents(data, prefix, sep);
    LeavesShape(data, prefix, sep);
    forall k | k in Keys(leaves)
      ensures prefix <= k
      ensures data.JArr? || (data.JObj? && prefix != "") ==> prefix + sep <= k
    {
      var i :| 0 <= i < |leaves| && Keys(leaves)[i] == k;
      assert leaves[i] in leaves;
    }
  }

  /** A top-level array yields keys that all begin with the separator. */
  lemma TopLevelArrayKeysStartWithSep(elems: seq<Json>, sep: string)
    ensures forall k :: k in Keys(Flatten(JArr(elems), "", sep)) ==> sep <= k
  {
    FlattenKeysExtendPrefix(JArr(elems), "", sep);
    assert "" + sep == sep;
  }

  /** A scalar ends the recursion as the single entry `{prefix: value}`; an
      empty object or array contributes no keys at all. */
  lemma FlattenBaseCases(data: Json, prefix: string, sep: string)
    ensures data.IsScalar() ==> Flatten(data, prefix, sep) == [(prefix, data)]
    ensures data == JObj([]) || data == JArr([]) ==> Flatten(data, prefix, sep) == []
  {
  }

  lemma {:induction false} MemberLeafKeys(data: Json, n: nat, prefix: string, sep: string)
    requires data.JObj? && n <= |data.members|
    ensures forall k :: k in Keys(MemberLeaves(data, n, prefix, sep)) <==>
      exists i :: 0 <= i < n && k in Keys(Leaves(data.members[i].1, MemberKey(prefix, sep, data.members[i].0), sep))
    decreases n
  {
    if n > 0 {
      var m := n - 1;
      var member := data.members[m];
      MemberLeafKeys(data, m, prefix, sep);
      MemberStep(data, n, prefix, sep);
      KeysAppend(MemberLeaves(data, m, prefix, sep), Leaves(member.1, MemberKey(prefix, sep, member.0), sep));
    }
  }

  lemma {:induction false} ElemLeafKeys(data: Json, n: nat, prefix: string, sep: string)
    requires data.JArr? && n <= |data.elems|
    ensures forall k :: k in Keys(ElemLeaves(data, n, prefix, sep)) <==>
      exists i :: 0 <= i < n && k in Keys(Leaves(data.elems[i], ElemKey(prefix, sep, i), sep))
    decreases n
  {
    if n > 0 {
      var m := n - 1;
      ElemLeafKeys(data, m, prefix, sep);
      ElemStep(data, n, prefix, sep);
      KeysAppend(ElemLeaves(data, m, prefix, sep), Leaves(data.elems[m], ElemKey(prefix, sep, m), sep));
    }
  }

  /** The keys of an object are the keys of its members, each flattened under
      `prefix + sep + name` (or the bare name under an empty prefix). */
  lemma ObjectKeys(members: seq<(string, Json)>, prefix: string, sep: string)
    ensures forall k :: k in Keys(Flatten(JObj(members), prefix, sep)) <==>
      exists i :: 0 <= i < |members| && k in Keys(Flatten(members[i].1, MemberKey(prefix, sep, members[i].0), sep))
  {
    var data := JObj(members);
    FlattenContents(data, prefix, sep);
    MemberLeafKeys(data, |members|, prefix, sep);
    forall i | 0 <= i < |members|
      ensures forall k :: k in Keys(Flatten(members[i].1, MemberKey(prefix, sep, members[i].0), sep)) <==>
                          k in Keys(Leaves(members[i].1, MemberKey(prefix, sep, members[i].0), sep))
    {
      FlattenContents(members[i].1, MemberKey(prefix, sep, members[i].0), sep);
    }
  }

  /** The keys of an array are the keys of its elements, element `i` flattened
      under `prefix + sep + str(i)`. */
  lemma ArrayKeys(elems: seq<Json>, prefix: string, sep: string)
    ensures forall k :: k in Keys(Flatten(JArr(elems), prefix, sep)) <==>
      exists i :: 0 <= i < |elems| && k in Keys(Flatten(elems[i], ElemKey(prefix, sep, i), sep))
  {
    var data := JArr(elems);
    FlattenContents(data, prefix, sep);
    ElemLeafKeys(data, |elems|, prefix, sep);
    forall i | 0 <= i < |elems|
      ensures forall k :: k in Keys(Flatten(elems[i], ElemKey(prefix, sep, i), sep)) <==>
                          k in Keys(Leaves(elems[i], ElemKey(prefix, sep, i), sep))
    {
      FlattenContents(elems[i], ElemKey(prefix, sep, i), sep);
    }
  }

  /** `{"a": {"b": 1, "c": [2, 3]}}` flattens to `a_b`, `a_c_0`, `a_c_1`, in that order. */
  lemma NestedExample()
    ensures Flatten(JObj([("a", JObj([("b", JNum(1)), ("c", JArr([JNum(2), JNum(3)]))]))]), "", DefaultSep)
         == [("a_b", JNum(1)), ("a_c_0", JNum(2)), ("a_c_1", JNum(3))]
  {
    var c := JArr([JNum(2), JNum(3)]);
    var a := JObj([("b", JNum(1)), ("c", c)]);
    var top := JObj([("a", a)]);
    NestedExampleLeaves();
    assert MemberKey("", "_", "a") == "a";
    MemberStep(top, 1, "", "_");
    var expected := [("a_b", JNum(1)), ("a_c_0", JNum(2)), ("a_c_1", JNum(3))];
    assert Leaves(top, "", "_") == expected;
    assert Keys(expected) == ["a_b", "a_c_0", "a_c_1"];
    FlattenWithoutCollisions(top, "", "_");
  }

  lemma NestedExampleLeaves()
    ensures Leaves(JObj([("b", JNum(1)), ("c", JArr([JNum(2), JNum(3)]))]), "a", "_")
         == [("a_b", JNum(1)), ("a_c_0", JNum(2)), ("a_c_1", JNum(3))]
  {
    var a := JObj([("b", JNum(1)), ("c", JArr([JNum(2), JNum(3)]))]);
    NestedExampleArray();
    assert MemberKey("a", "_", "b") == "a_b";
    assert MemberKey("a", "_", "c") == "a_c";
    MemberStep(a, 1, "a", "_");
    MemberStep(a, 2, "a", "_");
  }

  lemma NestedExampleArray()
    ensures Leaves(JArr([JNum(2), JNum(3)]), "a_c", "_") == [("a_c_0", JNum(2)), ("a_c_1", JNum(3))]
  {
    var c := JArr([JNum(2), JNum(3)]);
    assert NatToString(0) == "0" && NatToString(1) == "1";
    assert ElemKey("a_c", "_", 0) == "a_c_0";
    assert ElemKey("a_c", "_", 1) == "a_c_1";
    ElemStep(c, 1, "a_c", "_");
    ElemStep(c, 2, "a_c", "_");
  }

  /** `{"a_b": 1, "a": {"b": 2}}`: both leaves have the path `a_b`; the later
      value wins and only one key remains. */
  lemma CollisionExample()
    ensures Flatten(JObj([("a_b", JNum(1)), ("a", JObj([("b", JNum(2))]))]), "", DefaultSep) == [("a_b", JNum(2))]
  {
    var top := JObj([("a_b", JNum(1)), ("a", JObj([("b", JNum(2))]))]);
    CollisionLeaves();
    FlattenIsDictOfLeaves(top, "", "_");
    CollisionDict();
  }

  lemma CollisionLeaves()
    ensures Leaves(JObj([("a_b", JNum(1)), ("a", JObj([("b", JNum(2))]))]), "", "_")
         == [("a_b", JNum(1)), ("a_b", JNum(2))]
  {
    var inner := JObj([("b", JNum(2))]);
    var top := JObj([("a_b", JNum(1)), ("a", inner)]);
    assert MemberKey("a", "_", "b") == "a_b";
    assert MemberKey("", "_", "a") == "a";
    assert MemberKey("", "_", "a_b") == "a_b";
    MemberStep(inner, 1, "a", "_");
    assert Leaves(inner, "a", "_") == [("a_b", JNum(2))];
    MemberStep(top, 1, "", "_");
    MemberStep(top, 2, "", "_");
  }

  lemma CollisionDict()
    ensures Dict([("a_b", JNum(1)), ("a_b", JNum(2))]) == [("a_b", JNum(2))]
  {
    var leaves: seq<(string, Json)> := [("a_b", JNum(1)), ("a_b", JNum(2))];
    assert leaves[..1] == [("a_b", JNum(1))];
    DictSingleton("a_b", JNum(1));
    assert Dict(leaves) == Insert(Dict(leaves[..1]), "a_b", JNum(2));
  }
}
