/**
 * The entries of a resource file's dictionary and the way `apply_xml`
 * groups them into a dictionary of lists: first by node tag, and, for
 * `htmlContent`, once more by the `tag` attribute. A Python dictionary
 * iterates its keys in insertion order, so a grouping is modelled as the
 * sequence of keys in order of first appearance plus a map from key to the
 * list that was appended to.
 */
module XmlGrouping {

  /**
   * One entry of a resource file's dictionary: the tag of the node it
   * targets, its ordinal among that tag's eligible nodes, the `tag`
   * attribute that picks the node for `htmlContent`, and the texts.
   */
  datatype XmlEntry = XmlEntry(nodeTag: string, nodeIdx: int, attribute: string, original: string, translation: string)

  /** The two keys entries are grouped by. */
  datatype GroupKey = ByTag | ByAttribute

  function KeyOf(e: XmlEntry, kind: GroupKey): string
  {
    match kind
    case ByTag => e.nodeTag
    case ByAttribute => e.attribute
  }

  /** The keys of a grouping, in the order in which each first appears among the entries. */
  function GroupKeys(entries: seq<XmlEntry>, kind: GroupKey): (keys: seq<string>)
    decreases |entries|
  {
    if entries == [] then []
    else
      var init := entries[..|entries| - 1];
      var last := entries[|entries| - 1];
      var keys := GroupKeys(init, kind);
      if KeyOf(last, kind) in keys then keys else keys + [KeyOf(last, kind)]
  }

  /** The entries with key `key`, in their original order. */
  function Members(entries: seq<XmlEntry>, kind: GroupKey, key: string): (group: seq<XmlEntry>)
    decreases |entries|
  {
    if entries == [] then []
    else
      var init := entries[..|entries| - 1];
      var last := entries[|entries| - 1];
      Members(init, kind, key) + (if KeyOf(last, kind) == key then [last] else [])
  }

  /**
   * Building the dictionary of lists, as `apply_xml` does with `entry_dict`:
   * an unseen key starts a one-entry list, a seen key has the entry
   * appended to its list.
   */
  method GroupEntries(entries: seq<XmlEntry>, kind: GroupKey) returns (keys: seq<string>, groups: map<string, seq<XmlEntry>>)
    ensures keys == GroupKeys(entries, kind)
    ensures forall k :: k in groups <==> k in keys
    ensures forall k :: k in groups ==> groups[k] == Members(entries, kind, k)
  {
    keys, groups := [], map[];
    var i := 0;
    while i < |entries|
      invariant 0 <= i <= |entries|
      invariant GroupedPrefix(entries, i, kind, keys, groups)
    {
      var entry := entries[i];
      var key := KeyOf(entry, kind);
      ghost var oldKeys, oldGroups := keys, groups;
      if key !in groups {
        groups := groups[key := [entry]];
        keys := keys + [key];
      } else {
        groups := groups[key := groups[key] + [entry]];
      }
      GroupStep(entries, i, kind, oldKeys, oldGroups);
      i := i + 1;
    }
    assert entries[..i] == entries;
  }

  /** `keys` and `groups` are the dictionary built from the first `i` entries. */
  ghost predicate GroupedPrefix(entries: seq<XmlEntry>, i: nat, kind: GroupKey,
                                keys: seq<string>, groups: map<string, seq<XmlEntry>>)
  {
    && i <= |entries|
    && keys == GroupKeys(entries[..i], kind)
    && (forall k :: k in groups <==> k in keys)
    && (forall k :: k in groups ==> groups[k] == Members(entries[..i], kind, k))
  }

  /** One more entry: a new key goes to the end of the keys, the entry to the end of its group. */
  lemma GroupStep(entries: seq<XmlEntry>, i: nat, kind: GroupKey,
                  keys: seq<string>, groups: map<string, seq<XmlEntry>>)
    requires i < |entries| && GroupedPrefix(entries, i, kind, keys, groups)
    ensures var key := KeyOf(entries[i], kind);
      if key !in groups then GroupedPrefix(entries, i + 1, kind, keys + [key], groups[key := [entries[i]]])
      else GroupedPrefix(entries, i + 1, kind, keys, groups[key := groups[key] + [entries[i]]])
  {
    var key := KeyOf(entries[i], kind);
    var p, q := entries[..i], entries[..i + 1];
    assert q[..|q| - 1] == p && q[|q| - 1] == entries[i];
    assert GroupKeys(q, kind) == if key in GroupKeys(p, kind) then keys else keys + [key];
    assert forall k {:trigger Members(q, kind, k)} :: Members(q, kind, k)
             == Members(p, kind, k) + (if key == k then [entries[i]] else []);
    if key !in groups {
      NewKeyHasNoMembers(p, kind, key);
      var g := groups[key := [entries[i]]];
      assert forall k :: k in g ==> g[k] == Members(q, kind, k);
    } else {
      var g := groups[key := groups[key] + [entries[i]]];
      assert forall k :: k in g ==> g[k] == Members(q, kind, k);
    }
  }

  /** A key that has not appeared yet has an empty group. */
  lemma {:induction false} NewKeyHasNoMembers(entries: seq<XmlEntry>, kind: GroupKey, key: string)
    requires key !in GroupKeys(entries, kind)
    ensures Members(entries, kind, key) == []
    decreases |entries|
  {
    if entries != [] {
      var init := entries[..|entries| - 1];
      assert key !in GroupKeys(init, kind);
      NewKeyHasNoMembers(init, kind, key);
    }
  }

  /**
   * Grouping keeps insertion order: the group of a concatenation is the
   * group of the first part followed by the group of the second.
   */
  lemma {:induction false} MembersAppend(a: seq<XmlEntry>, b: seq<XmlEntry>, kind: GroupKey, key: string)
    ensures Members(a + b, kind, key) == Members(a, kind, key) + Members(b, kind, key)
    decreases |b|
  {
    if b == [] {
      assert a + b == a;
    } else {
      var init := b[..|b| - 1];
      assert (a + b)[..|a + b| - 1] == a + init;
      assert (a + b)[|a + b| - 1] == b[|b| - 1];
      MembersAppend(a, init, kind, key);
    }
  }

  /** An entry alone forms a group of itself exactly when its key is the group's. */
  lemma MembersSingle(e: XmlEntry, kind: GroupKey, key: string)
    ensures Members([e], kind, key) == if KeyOf(e, kind) == key then [e] else []
  {
    assert [e][..0] == [];
  }

  /** The keys are exactly the keys of the entries. */
  lemma {:induction false} GroupKeysExact(entries: seq<XmlEntry>, kind: GroupKey, key: string)
    ensures key in GroupKeys(entries, kind) <==> exists j :: 0 <= j < |entries| && KeyOf(entries[j], kind) == key
    decreases |entries|
  {
    if entries != [] {
      var init := entries[..|entries| - 1];
      GroupKeysExact(init, kind, key);
      if exists j :: 0 <= j < |entries| && KeyOf(entries[j], kind) == key {
        var j :| 0 <= j < |entries| && KeyOf(entries[j], kind) == key;
        if j < |init| {
          assert init[j] == entries[j];
        }
      }
      if exists j :: 0 <= j < |init| && KeyOf(init[j], kind) == key {
        var j :| 0 <= j < |init| && KeyOf(init[j], kind) == key;
        assert entries[j] == init[j];
      }
    }
  }

  /** No string is listed twice. */
  predicate Distinct(keys: seq<string>)
  {
    forall a, b :: 0 <= a < b < |keys| ==> keys[a] != keys[b]
  }

  /** Dropping the first key keeps the rest distinct, and the first key is not among them. */
  lemma DistinctTail(keys: seq<string>)
    requires Distinct(keys) && |keys| > 0
    ensures Distinct(keys[1..]) && keys[0] !in keys[1..]
  {
    forall a, b | 0 <= a < b < |keys[1..]| ensures keys[1..][a] != keys[1..][b] {
      assert keys[1..][a] == keys[a + 1] && keys[1..][b] == keys[b + 1];
    }
    forall b | 0 <= b < |keys[1..]| ensures keys[1..][b] != keys[0] {
      assert keys[1..][b] == keys[b + 1];
    }
  }

  /** No key is listed twice: each group is visited once. */
  lemma {:induction false} GroupKeysDistinct(entries: seq<XmlEntry>, kind: GroupKey)
    ensures Distinct(GroupKeys(entries, kind))
    decreases |entries|
  {
    if entries != [] {
      var init := entries[..|entries| - 1];
      GroupKeysDistinct(init, kind);
      var keys, key := GroupKeys(init, kind), KeyOf(entries[|entries| - 1], kind);
      if key !in keys {
        assert forall a :: 0 <= a < |keys| ==> keys[a] != key;
        var all := keys + [key];
        forall a, b | 0 <= a < b < |all| ensures all[a] != all[b] {
          assert all[a] == keys[a];
          if b < |keys| { assert all[b] == keys[b]; } else { assert all[b] == key; }
        }
        assert GroupKeys(entries, kind) == all;
      } else {
        assert GroupKeys(entries, kind) == keys;
      }
    }
  }

  /** A group holds exactly the entries with its key. */
  lemma {:induction false} MembersExact(entries: seq<XmlEntry>, kind: GroupKey, key: string, e: XmlEntry)
    ensures e in Members(entries, kind, key) <==> e in entries && KeyOf(e, kind) == key
    decreases |entries|
  {
    if entries != [] {
      var init := entries[..|entries| - 1];
      MembersExact(init, kind, key, e);
      assert entries == init + [entries[|entries| - 1]];
    }
  }
}
