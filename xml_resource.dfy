/**
 * Translation of structured resource files (`valid_element` and
 * `Applier.apply_xml`). The parsed document is a sequence of element nodes
 * in document order; an entry picks its node either by ordinal among the
 * eligible nodes of its tag, or, for `htmlContent`, by the node's `tag`
 * attribute, in which case it is applied to every node that matches.
 */
module XmlResource {
  import opened Wrappers
  import opened Strings
  import opened XmlGrouping

  /** The tag whose entries are routed by attribute instead of by ordinal. */
  const HtmlContent: string := "htmlContent"

  /** Parents whose children are never counted as translatable nodes. */
  const FormattingNames: string := "formattingNames"
  const StatusEffects: string := "statusEffects"

  /**
   * An element: its tag, its parent's tag (None for the document root), its
   * text payload as the document holds it (None when it has none), and the
   * value of its `tag` attribute, if any.
   */
  datatype Node = Node(tag: string, parent: Option<string>, text: Option<string>, tagAttr: Option<string>)

  /** The exceptions that abort a resource file before it is written. */
  datatype XmlError =
    | NoParent(tag: string)                                // `valid_element` read the parent of the root
    | IndexOutOfRange(tag: string, index: int, count: nat) // `nodes[entry.node_idx]` failed
    | NoHtmlContent(attribute: string)                     // `nodes[0]` on an empty attribute match

  // ---------------------------------------------------------------------------
  // Eligibility
  // ---------------------------------------------------------------------------

  /** The node has a payload with at least one character that is not whitespace. */
  predicate HasVisibleText(n: Node)
  {
    n.text.Some? && exists i :: 0 <= i < |n.text.value| && !IsSpace(n.text.value[i])
  }

  /** A node counts for ordinal addressing: visible text, under a parent that is not excluded. */
  predicate Eligible(n: Node)
  {
    HasVisibleText(n) && n.parent.Some? && n.parent.value != FormattingNames && n.parent.value != StatusEffects
  }

  /** A node on which `valid_element` asks the root element for its parent, which fails. */
  predicate AsksRootForParent(n: Node)
  {
    HasVisibleText(n) && n.parent.None?
  }

  /**
   * `valid_element`: no payload, or a blank one, is not eligible; otherwise
   * the parent's tag decides, and the root has no parent to ask.
   */
  function ValidElement(n: Node): (r: Result<bool, XmlError>)
    ensures r == Ok(true) <==> Eligible(n)
    ensures r.Err? <==> AsksRootForParent(n)
    ensures r.Err? ==> r.error == NoParent(n.tag)
  {
    if n.text.None? then Ok(false)
    else if Strip(n.text.value) == [] then Ok(false)
    else if n.parent.None? then Err(NoParent(n.tag))
    else if n.parent.value == FormattingNames then Ok(false)
    else if n.parent.value == StatusEffects then Ok(false)
    else Ok(true)
  }

  /** Strictly increasing positions: document order without repetition. */
  predicate Increasing(s: seq<nat>)
  {
    forall a, b :: 0 <= a < b < |s| ==> s[a] < s[b]
  }

  /**
   * `list(filter(valid_element, tree.iter(tag)))` over the nodes from
   * position `from` on: the positions of the eligible nodes of `tag`, in
   * document order.
   */
  function EligibleFrom(doc: seq<Node>, tag: string, from: nat): (r: Result<seq<nat>, XmlError>)
    requires from <= |doc|
    ensures r.Ok? ==> forall k :: k in r.value <==> from <= k < |doc| && doc[k].tag == tag && Eligible(doc[k])
    ensures r.Ok? ==> Increasing(r.value)
    ensures r.Err? ==> r.error == NoParent(tag)
    decreases |doc| - from
  {
    if from == |doc| then Ok([])
    else if doc[from].tag != tag then EligibleFrom(doc, tag, from + 1)
    else
      match ValidElement(doc[from])
      case Err(e) => Err(e)
      case Ok(valid) =>
        match EligibleFrom(doc, tag, from + 1)
        case Err(e) => Err(e)
        case Ok(rest) =>
          var out := if valid then [from] + rest else rest;
          assert (forall k :: k in out <==> from <= k < |doc| && doc[k].tag == tag && Eligible(doc[k]))
              && Increasing(out) by {
            EligibleCons(doc, tag, from, rest);
          }
          Ok(out)
  }

  /** One filtering step: prepending `from` when it is eligible keeps the list exact and increasing. */
  lemma EligibleCons(doc: seq<Node>, tag: string, from: nat, rest: seq<nat>)
    requires from < |doc| && doc[from].tag == tag && ValidElement(doc[from]).Ok?
    requires forall k :: k in rest <==> from + 1 <= k < |doc| && doc[k].tag == tag && Eligible(doc[k])
    requires Increasing(rest)
    ensures var out := if ValidElement(doc[from]).value then [from] + rest else rest;
      (forall k :: k in out <==> from <= k < |doc| && doc[k].tag == tag && Eligible(doc[k])) && Increasing(out)
  {
    if ValidElement(doc[from]).value {
      PrependIncreasing(from, rest);
    }
  }

  /** A position below every member of an increasing list extends it. */
  lemma PrependIncreasing(from: nat, rest: seq<nat>)
    requires forall k :: k in rest ==> from < k
    requires Increasing(rest)
    ensures Increasing([from] + rest)
  {
    var out := [from] + rest;
    forall a, b | 0 <= a < b < |out| ensures out[a] < out[b] {
      assert out[b] == rest[b - 1] && rest[b - 1] in rest;
      if a > 0 { assert out[a] == rest[a - 1]; }
    }
  }

  /** Filtering fails exactly when the root itself carries the tag and visible text. */
  lemma {:induction false} EligibleFailsIff(doc: seq<Node>, tag: string, from: nat)
    requires from <= |doc|
    ensures EligibleFrom(doc, tag, from).Err?
        <==> exists k :: from <= k < |doc| && doc[k].tag == tag && AsksRootForParent(doc[k])
    decreases |doc| - from
  {
    if from < |doc| {
      EligibleFailsIff(doc, tag, from + 1);
    }
  }

  /**
   * `tree.xpath("//htmlContent[@tag='attr']")` over the nodes from position
   * `from` on: every `htmlContent` node whose `tag` attribute is `attr`.
   */
  function HtmlNodesFrom(doc: seq<Node>, attr: string, from: nat): (r: seq<nat>)
    requires from <= |doc|
    ensures forall k :: k in r <==> from <= k < |doc| && IsHtmlContentFor(doc[k], attr)
    ensures Increasing(r)
    decreases |doc| - from
  {
    if from == |doc| then []
    else
      var rest := HtmlNodesFrom(doc, attr, from + 1);
      assert forall b :: 0 <= b < |rest| ==> from < rest[b] by {
        forall b | 0 <= b < |rest| ensures from < rest[b] { assert rest[b] in rest; }
      }
      if IsHtmlContentFor(doc[from], attr) then [from] + rest else rest
  }

  predicate IsHtmlContentFor(n: Node, attr: string)
  {
    n.tag == HtmlContent && n.tagAttr == Some(attr)
  }

  // ---------------------------------------------------------------------------
  // Writing a payload
  // ---------------------------------------------------------------------------

  /** Writing one entry into a node: its payload becomes the translation; nothing else changes. */
  function SetPayload(n: Node, e: XmlEntry): (r: Node)
    ensures r.tag == n.tag && r.parent == n.parent && r.tagAttr == n.tagAttr
    ensures r.text == Some(e.translation)
  {
    n.(text := Some(e.translation))
  }

  /** Writing the entries of a group into one node, in order. */
  function ApplyToNode(n: Node, es: seq<XmlEntry>): (r: Node)
    ensures r.tag == n.tag && r.parent == n.parent && r.tagAttr == n.tagAttr
    ensures es == [] ==> r == n
    ensures es != [] ==> r.text == Some(es[|es| - 1].translation)
    decreases |es|
  {
    if es == [] then n else ApplyToNode(SetPayload(n, es[0]), es[1..])
  }

  // ---------------------------------------------------------------------------
  // The document after applying a file's entries
  // ---------------------------------------------------------------------------

  /**
   * Entries of an ordinary tag, in order: each writes the node at its
   * ordinal in `nodes` (the eligible list, computed once for the group);
   * the first ordinal outside the list raises.
   */
  function ApplyOrdinals(doc: seq<Node>, tag: string, nodes: seq<nat>, es: seq<XmlEntry>): (r: Result<seq<Node>, XmlError>)
    requires forall k :: k in nodes ==> k < |doc|
    ensures r.Ok? ==> |r.value| == |doc|
    decreases |es|
  {
    if es == [] then Ok(doc)
    else
      match PyIndex(|nodes|, es[0].nodeIdx)
      case None => Err(IndexOutOfRange(tag, es[0].nodeIdx, |nodes|))
      case Some(j) =>
        assert nodes[j] in nodes;
        ApplyOrdinals(doc[nodes[j] := SetPayload(doc[nodes[j]], es[0])], tag, nodes, es[1..])
  }

  /** Every entry of an attribute group written to every matching node. */
  function Broadcast(doc: seq<Node>, targets: seq<nat>, es: seq<XmlEntry>): (r: seq<Node>)
    requires forall k :: k in targets ==> k < |doc|
    ensures |r| == |doc|
    decreases |targets|
  {
    if targets == [] then doc
    else
      assert targets[0] in targets;
      assert forall k :: k in targets[1..] ==> k in targets;
      Broadcast(doc[targets[0] := ApplyToNode(doc[targets[0]], es)], targets[1..], es)
  }

  /** The `htmlContent` group: attribute groups in order, each broadcast; an attribute with no node raises. */
  function ApplyHtmlGroups(doc: seq<Node>, attrs: seq<string>, es: seq<XmlEntry>): (r: Result<seq<Node>, XmlError>)
    ensures r.Ok? ==> |r.value| == |doc|
    decreases |attrs|
  {
    if attrs == [] then Ok(doc)
    else
      var targets := HtmlNodesFrom(doc, attrs[0], 0);
      if |targets| == 0 then Err(NoHtmlContent(attrs[0]))
      else ApplyHtmlGroups(Broadcast(doc, targets, Members(es, ByAttribute, attrs[0])), attrs[1..], es)
  }

  /** One tag group: `htmlContent` by attribute, any other tag by ordinal among its eligible nodes. */
  function ApplyTagGroup(doc: seq<Node>, tag: string, es: seq<XmlEntry>): (r: Result<seq<Node>, XmlError>)
    ensures r.Ok? ==> |r.value| == |doc|
  {
    if tag == HtmlContent then ApplyHtmlGroups(doc, GroupKeys(es, ByAttribute), es)
    else
      match EligibleFrom(doc, tag, 0)
      case Err(e) => Err(e)
      case Ok(nodes) => ApplyOrdinals(doc, tag, nodes, es)
  }

  /** The tag groups in dictionary order, each on the document the previous ones left. */
  function ApplyTagGroups(doc: seq<Node>, tags: seq<string>, entries: seq<XmlEntry>): (r: Result<seq<Node>, XmlError>)
    ensures r.Ok? ==> |r.value| == |doc|
    decreases |tags|
  {
    if tags == [] then Ok(doc)
    else
      match ApplyTagGroup(doc, tags[0], Members(entries, ByTag, tags[0]))
      case Err(e) => Err(e)
      case Ok(next) => ApplyTagGroups(next, tags[1..], entries)
  }

  /** The document `apply_xml` writes back, or the exception that stops it first. */
  function ApplyXmlSpec(doc: seq<Node>, entries: seq<XmlEntry>): Result<seq<Node>, XmlError>
  {
    ApplyTagGroups(doc, GroupKeys(entries, ByTag), entries)
  }

  /** A method's outcome as a Result: the document when no error was returned. */
  function AsResult(doc: seq<Node>, err: Option<XmlError>): Result<seq<Node>, XmlError>
  {
    if err.None? then Ok(doc) else Err(err.value)
  }

  // ---------------------------------------------------------------------------
  // apply_xml
  // ---------------------------------------------------------------------------

  /** The inner `for entry in entries` loop on one node. */
  method WriteEntries(tree: array<Node>, node: nat, es: seq<XmlEntry>)
    requires node < tree.Length
    modifies tree
    ensures tree[..] == old(tree[..])[node := ApplyToNode(old(tree[node]), es)]
  {
    var i := 0;
    while i < |es|
      invariant 0 <= i <= |es|
      invariant tree[..] == old(tree[..])[node := tree[node]]
      invariant ApplyToNode(old(tree[node]), es) == ApplyToNode(tree[node], es[i..])
    {
      assert es[i..][0] == es[i] && es[i..][1..] == es[i + 1..];
      tree[node] := SetPayload(tree[node], es[i]);
      i := i + 1;
    }
  }

  /** An ordinary tag's cluster: filter the tag's nodes once, then write each entry at its ordinal. */
  method ApplyOrdinalCluster(tree: array<Node>, tag: string, cluster: seq<XmlEntry>) returns (err: Option<XmlError>)
    requires tag != HtmlContent
    modifies tree
    ensures AsResult(tree[..], err) == ApplyTagGroup(old(tree[..]), tag, cluster)
  {
    var found := EligibleFrom(tree[..], tag, 0);
    if found.Err? {
      return Some(found.error);
    }
    var nodes := found.value;
    var i := 0;
    while i < |cluster|
      invariant 0 <= i <= |cluster|
      invariant ApplyOrdinals(old(tree[..]), tag, nodes, cluster) == ApplyOrdinals(tree[..], tag, nodes, cluster[i..])
    {
      var entry := cluster[i];
      assert cluster[i..][0] == entry && cluster[i..][1..] == cluster[i + 1..];
      var j := PyIndex(|nodes|, entry.nodeIdx);
      if j.None? {
        return Some(IndexOutOfRange(tag, entry.nodeIdx, |nodes|));
      }
      var node := nodes[j.value];
      assert node in nodes;
      tree[node] := SetPayload(tree[node], entry);
      i := i + 1;
    }
    assert cluster[i..] == [];
    return None;
  }

  /**
   * The `htmlContent` cluster: group by attribute, then write each
   * attribute group to the nodes that carry the attribute.
   */
  method ApplyHtmlCluster(tree: array<Node>, cluster: seq<XmlEntry>) returns (err: Option<XmlError>)
    modifies tree
    ensures AsResult(tree[..], err) == ApplyTagGroup(old(tree[..]), HtmlContent, cluster)
  {
    var attrs, byAttribute := GroupEntries(cluster, ByAttribute);
    var a := 0;
    while a < |attrs|
      invariant 0 <= a <= |attrs|
      invariant ApplyHtmlGroups(old(tree[..]), attrs, cluster) == ApplyHtmlGroups(tree[..], attrs[a..], cluster)
    {
      var attr := attrs[a];
      assert attrs[a..][0] == attr && attrs[a..][1..] == attrs[a + 1..];
      var entries := byAttribute[attr];
      assert entries == Members(cluster, ByAttribute, attr);
      err := ApplyAttributeGroup(tree, attr, entries);
      if err.Some? {
        return;
      }
      a := a + 1;
    }
    assert attrs[a..] == [];
    return None;
  }

  /**
   * One attribute group: with several matching nodes every entry goes to
   * every node; otherwise the node is taken as `nodes[0]`, which raises
   * when there is none.
   */
  method ApplyAttributeGroup(tree: array<Node>, attr: string, entries: seq<XmlEntry>) returns (err: Option<XmlError>)
    modifies tree
    ensures var nodes := HtmlNodesFrom(old(tree[..]), attr, 0);
      if |nodes| == 0 then err == Some(NoHtmlContent(attr))
      else err.None? && tree[..] == Broadcast(old(tree[..]), nodes, entries)
  {
    var nodes := HtmlNodesFrom(tree[..], attr, 0);
    ghost var before := tree[..];
    if |nodes| > 1 {
      var t := 0;
      while t < |nodes|
        invariant 0 <= t <= |nodes|
        invariant tree.Length == |before|
        invariant forall k :: k in nodes[t..] ==> k in nodes
        invariant Broadcast(before, nodes, entries) == Broadcast(tree[..], nodes[t..], entries)
      {
        assert nodes[t..][0] == nodes[t] && nodes[t..][1..] == nodes[t + 1..];
        assert nodes[t] in nodes;
        WriteEntries(tree, nodes[t], entries);
        t := t + 1;
      }
      assert nodes[t..] == [];
    } else {
      if |nodes| == 0 {
        return Some(NoHtmlContent(attr));
      }
      var node := nodes[0];
      assert node in nodes;
      WriteEntries(tree, node, entries);
      assert nodes == [node];
      assert Broadcast(before, nodes, entries) == Broadcast(tree[..], [], entries);
    }
    return None;
  }

  /** One cluster of the file, routed by its tag. */
  method ApplyCluster(tree: array<Node>, tag: string, cluster: seq<XmlEntry>) returns (err: Option<XmlError>)
    modifies tree
    ensures AsResult(tree[..], err) == ApplyTagGroup(old(tree[..]), tag, cluster)
  {
    if tag == HtmlContent {
      err := ApplyHtmlCluster(tree, cluster);
    } else {
      err := ApplyOrdinalCluster(tree, tag, cluster);
    }
  }

  /**
   * `apply_xml`: parse the file into a tree of nodes, group the entries by
   * tag, apply each group, and return the document that is written back;
   * an Err is the exception that aborts the file before the write.
   */
  method ApplyXml(doc: seq<Node>, entries: seq<XmlEntry>) returns (r: Result<seq<Node>, XmlError>)
    ensures r == ApplyXmlSpec(doc, entries)
  {
    var tree := new Node[|doc|](i requires 0 <= i < |doc| => doc[i]);
    assert tree[..] == doc;
    var tags, entryDict := GroupEntries(entries, ByTag);
    var g := 0;
    while g < |tags|
      invariant 0 <= g <= |tags|
      invariant ApplyXmlSpec(doc, entries) == ApplyTagGroups(tree[..], tags[g..], entries)
    {
      var tag := tags[g];
      assert tags[g..][0] == tag && tags[g..][1..] == tags[g + 1..];
      var cluster := entryDict[tag];
      assert cluster == Members(entries, ByTag, tag);
      var err := ApplyCluster(tree, tag, cluster);
      if err.Some? {
        return Err(err.value);
      }
      g := g + 1;
    }
    assert tags[g..] == [];
    return Ok(tree[..]);
  }

  // ---------------------------------------------------------------------------
  // Properties: ordinal addressing
  // ---------------------------------------------------------------------------

  /**
   * A single entry of an ordinary tag writes exactly the node at its
   * ordinal among the tag's eligible nodes (counting from the end when the
   * ordinal is negative).
   */
  lemma OrdinalTarget(doc: seq<Node>, e: XmlEntry, nodes: seq<nat>, j: nat)
    requires e.nodeTag != HtmlContent && EligibleFrom(doc, e.nodeTag, 0) == Ok(nodes)
    requires PyIndex(|nodes|, e.nodeIdx) == Some(j)
    ensures j < |nodes| && nodes[j] < |doc|
    ensures doc[nodes[j]].tag == e.nodeTag && Eligible(doc[nodes[j]])
    ensures ApplyTagGroup(doc, e.nodeTag, [e]) == Ok(doc[nodes[j] := SetPayload(doc[nodes[j]], e)])
  {
    assert nodes[j] in nodes;
    OneOrdinal(doc, e.nodeTag, nodes, e, j);
  }

  /** One entry with an ordinal in range writes the node the ordinal names. */
  lemma OneOrdinal(doc: seq<Node>, tag: string, nodes: seq<nat>, e: XmlEntry, j: nat)
    requires forall k :: k in nodes ==> k < |doc|
    requires PyIndex(|nodes|, e.nodeIdx) == Some(j)
    ensures j < |nodes| && nodes[j] < |doc|
    ensures ApplyOrdinals(doc, tag, nodes, [e]) == Ok(doc[nodes[j] := SetPayload(doc[nodes[j]], e)])
  {
    assert nodes[j] in nodes;
    assert [e][1..] == [];
  }

  /** A single entry whose ordinal is outside the eligible list raises, naming the tag, the ordinal and the count. */
  lemma OrdinalOutOfRange(doc: seq<Node>, e: XmlEntry, nodes: seq<nat>)
    requires e.nodeTag != HtmlContent && EligibleFrom(doc, e.nodeTag, 0) == Ok(nodes)
    requires PyIndex(|nodes|, e.nodeIdx).None?
    ensures ApplyTagGroup(doc, e.nodeTag, [e]) == Err(IndexOutOfRange(e.nodeTag, e.nodeIdx, |nodes|))
  {
  }

  /** The entry selects node `k`: its ordinal is in range and names `k`. */
  predicate Selects(nodes: seq<nat>, e: XmlEntry, k: nat)
  {
    PyIndex(|nodes|, e.nodeIdx).Some? && nodes[PyIndex(|nodes|, e.nodeIdx).value] == k
  }

  /** Nodes that no entry of the group selects come out exactly as they went in. */
  lemma {:induction false} UnselectedNodesUnchanged(doc: seq<Node>, tag: string, nodes: seq<nat>, es: seq<XmlEntry>, k: nat)
    requires forall i :: i in nodes ==> i < |doc|
    requires k < |doc| && forall j :: 0 <= j < |es| ==> !Selects(nodes, es[j], k)
    requires ApplyOrdinals(doc, tag, nodes, es).Ok?
    ensures ApplyOrdinals(doc, tag, nodes, es).value[k] == doc[k]
    decreases |es|
  {
    if es != [] {
      var j := PyIndex(|nodes|, es[0].nodeIdx).value;
      assert !Selects(nodes, es[0], k);
      assert nodes[j] in nodes;
      var next := doc[nodes[j] := SetPayload(doc[nodes[j]], es[0])];
      assert forall i :: 0 <= i < |es[1..]| ==> es[1..][i] == es[i + 1];
      UnselectedNodesUnchanged(next, tag, nodes, es[1..], k);
    }
  }

  /** One ordinal outside the eligible list is enough for the group to raise. */
  lemma {:induction false} BadOrdinalRaises(doc: seq<Node>, tag: string, nodes: seq<nat>, es: seq<XmlEntry>, j: nat)
    requires forall i :: i in nodes ==> i < |doc|
    requires j < |es| && PyIndex(|nodes|, es[j].nodeIdx).None?
    ensures ApplyOrdinals(doc, tag, nodes, es).Err?
    decreases j
  {
    if j > 0 {
      match PyIndex(|nodes|, es[0].nodeIdx)
      case None =>
      case Some(m) =>
        assert nodes[m] in nodes;
        assert es[1..][j - 1] == es[j];
        BadOrdinalRaises(doc[nodes[m] := SetPayload(doc[nodes[m]], es[0])], tag, nodes, es[1..], j - 1);
    }
  }

  /** The error names the first entry whose ordinal is out of range, with the eligible count. */
  lemma {:induction false} ErrorNamesFirstBadOrdinal(doc: seq<Node>, tag: string, nodes: seq<nat>, es: seq<XmlEntry>, j: nat)
    requires forall i :: i in nodes ==> i < |doc|
    requires j < |es| && PyIndex(|nodes|, es[j].nodeIdx).None?
    requires forall i :: 0 <= i < j ==> PyIndex(|nodes|, es[i].nodeIdx).Some?
    ensures ApplyOrdinals(doc, tag, nodes, es) == Err(IndexOutOfRange(tag, es[j].nodeIdx, |nodes|))
    decreases j
  {
    if j > 0 {
      var m := PyIndex(|nodes|, es[0].nodeIdx).value;
      assert nodes[m] in nodes;
      assert es[1..][j - 1] == es[j];
      assert forall i :: 0 <= i < j - 1 ==> es[1..][i] == es[i + 1];
      ErrorNamesFirstBadOrdinal(doc[nodes[m] := SetPayload(doc[nodes[m]], es[0])], tag, nodes, es[1..], j - 1);
    }
  }

  /**
   * A group of an ordinary tag raises exactly when one of its ordinals is
   * outside the eligible list; with every ordinal in range it succeeds.
   */
  lemma {:induction false} OrdinalsFailIff(doc: seq<Node>, tag: string, nodes: seq<nat>, es: seq<XmlEntry>)
    requires forall i :: i in nodes ==> i < |doc|
    ensures ApplyOrdinals(doc, tag, nodes, es).Err?
        <==> exists j :: 0 <= j < |es| && PyIndex(|nodes|, es[j].nodeIdx).None?
    decreases |es|
  {
    if es != [] {
      match PyIndex(|nodes|, es[0].nodeIdx)
      case None =>
        assert PyIndex(|nodes|, es[0].nodeIdx).None?;
      case Some(m) =>
        assert nodes[m] in nodes;
        var next := doc[nodes[m] := SetPayload(doc[nodes[m]], es[0])];
        OrdinalsFailIff(next, tag, nodes, es[1..]);
        if exists j :: 0 <= j < |es| && PyIndex(|nodes|, es[j].nodeIdx).None? {
          var j :| 0 <= j < |es| && PyIndex(|nodes|, es[j].nodeIdx).None?;
          assert es[1..][j - 1] == es[j];
        }
        if exists j :: 0 <= j < |es[1..]| && PyIndex(|nodes|, es[1..][j].nodeIdx).None? {
          var j :| 0 <= j < |es[1..]| && PyIndex(|nodes|, es[1..][j].nodeIdx).None?;
          assert es[1..][j] == es[j + 1];
        }
    }
  }

  /** `es[j]` selects node `k` and no later entry of the group does. */
  predicate LastSelector(nodes: seq<nat>, es: seq<XmlEntry>, k: nat, j: nat)
  {
    j < |es| && Selects(nodes, es[j], k) && forall i :: j < i < |es| ==> !Selects(nodes, es[i], k)
  }

  /** The position of the last entry of the group that selects node `k`, if any does. */
  function LastSelecting(nodes: seq<nat>, es: seq<XmlEntry>, k: nat): (r: Option<nat>)
    ensures r.None? <==> forall j :: 0 <= j < |es| ==> !Selects(nodes, es[j], k)
    ensures r.Some? ==> LastSelector(nodes, es, k, r.value)
    decreases |es|
  {
    if es == [] then None
    else if Selects(nodes, es[|es| - 1], k) then Some(|es| - 1)
    else
      var init := es[..|es| - 1];
      assert forall j :: 0 <= j < |init| ==> init[j] == es[j];
      LastSelecting(nodes, init, k)
  }

  /** Node `k` after its group's ordinals: the payload of the last entry that selects it, or as it was. */
  function AfterOrdinals(n: Node, nodes: seq<nat>, es: seq<XmlEntry>, k: nat): Node
  {
    match LastSelecting(nodes, es, k)
    case None => n
    case Some(j) => SetPayload(n, es[j])
  }

  /** A later write to the same node replaces the earlier one. */
  lemma {:induction false} LastSelectorWins(doc: seq<Node>, tag: string, nodes: seq<nat>, es: seq<XmlEntry>, k: nat, j: nat)
    requires forall i :: i in nodes ==> i < |doc|
    requires k < |doc| && LastSelector(nodes, es, k, j)
    requires ApplyOrdinals(doc, tag, nodes, es).Ok?
    ensures ApplyOrdinals(doc, tag, nodes, es).value[k] == SetPayload(doc[k], es[j])
    decreases |es|
  {
    var m := PyIndex(|nodes|, es[0].nodeIdx).value;
    assert nodes[m] in nodes;
    var next := doc[nodes[m] := SetPayload(doc[nodes[m]], es[0])];
    assert forall i :: 0 <= i < |es[1..]| ==> es[1..][i] == es[i + 1];
    if j == 0 {
      UnselectedNodesUnchanged(next, tag, nodes, es[1..], k);
    } else {
      LastSelectorWins(next, tag, nodes, es[1..], k, j - 1);
    }
  }

  /**
   * The effect of an ordinary tag's group on one node: the last entry whose
   * ordinal names the node decides its payload; a node no entry names is
   * left exactly as it was.
   */
  lemma OrdinalsEffect(doc: seq<Node>, tag: string, nodes: seq<nat>, es: seq<XmlEntry>, k: nat)
    requires forall i :: i in nodes ==> i < |doc|
    requires k < |doc| && ApplyOrdinals(doc, tag, nodes, es).Ok?
    ensures ApplyOrdinals(doc, tag, nodes, es).value[k] == AfterOrdinals(doc[k], nodes, es, k)
  {
    match LastSelecting(nodes, es, k)
    case None => UnselectedNodesUnchanged(doc, tag, nodes, es, k);
    case Some(j) => LastSelectorWins(doc, tag, nodes, es, k, j);
  }

  /**
   * Over the remaining tag groups: a node of an ordinary tag that is still
   * to come is written by its own group alone, by ordinal in the eligible
   * list it has now.
   */
  lemma {:induction false} TagGroupsOrdinalEffect(cur: seq<Node>, tags: seq<string>, entries: seq<XmlEntry>,
                                                  k: nat, nodes: seq<nat>)
    requires ApplyTagGroups(cur, tags, entries).Ok? && k < |cur|
    requires cur[k].tag != HtmlContent && cur[k].tag in tags && Distinct(tags)
    requires EligibleFrom(cur, cur[k].tag, 0) == Ok(nodes)
    ensures ApplyTagGroups(cur, tags, entries).value[k]
        == AfterOrdinals(cur[k], nodes, Members(entries, ByTag, cur[k].tag), k)
    decreases |tags|
  {
    var tag := cur[k].tag;
    var group := Members(entries, ByTag, tags[0]);
    var next := ApplyTagGroup(cur, tags[0], group).value;
    TagGroupOnlyPayloadsOf(cur, tags[0], group);
    DistinctTail(tags);
    if tags[0] == tag {
      OrdinalsEffect(cur, tag, nodes, group, k);
      TagGroupsOnlyPayloads(next, tags[1..], entries);
    } else {
      OtherGroupsKeepOrdinals(cur, tags[0], group, tag);
      TagGroupsOrdinalEffect(next, tags[1..], entries, k, nodes);
    }
  }

  /**
   * What a file does to a node of an ordinary tag: the node is rewritten
   * exactly when an entry of its tag names it by ordinal among the eligible
   * nodes of the document as parsed, and it then carries the translation of
   * the last such entry; otherwise it is written back as it was.
   */
  lemma XmlOrdinalEffect(doc: seq<Node>, entries: seq<XmlEntry>, k: nat, nodes: seq<nat>)
    requires ApplyXmlSpec(doc, entries).Ok? && k < |doc| && doc[k].tag != HtmlContent
    requires EligibleFrom(doc, doc[k].tag, 0) == Ok(nodes)
    ensures ApplyXmlSpec(doc, entries).value[k]
        == AfterOrdinals(doc[k], nodes, Members(entries, ByTag, doc[k].tag), k)
  {
    var tags := GroupKeys(entries, ByTag);
    GroupKeysDistinct(entries, ByTag);
    if doc[k].tag in tags {
      TagGroupsOrdinalEffect(doc, tags, entries, k, nodes);
    } else {
      NewKeyHasNoMembers(entries, ByTag, doc[k].tag);
      TagGroupsOnlyPayloads(doc, tags, entries);
    }
  }

  // ---------------------------------------------------------------------------
  // Properties: htmlContent broadcast
  // ---------------------------------------------------------------------------

  /** Broadcasting writes the whole group into each target and leaves every other node alone. */
  lemma {:induction false} BroadcastEffect(doc: seq<Node>, targets: seq<nat>, es: seq<XmlEntry>)
    requires forall k :: k in targets ==> k < |doc|
    requires Increasing(targets)
    ensures forall k :: 0 <= k < |doc| ==>
      Broadcast(doc, targets, es)[k] == if k in targets then ApplyToNode(doc[k], es) else doc[k]
    decreases |targets|
  {
    if targets != [] {
      var t := targets[0];
      assert t in targets;
      var next := doc[t := ApplyToNode(doc[t], es)];
      assert forall k :: k in targets[1..] ==> k in targets && t < k;
      BroadcastEffect(next, targets[1..], es);
      assert forall k :: k in targets <==> k == t || k in targets[1..];
    }
  }

  /**
   * One attribute group of `htmlContent`: it raises exactly when no
   * `htmlContent` node has that `tag` attribute; otherwise every matching
   * node receives every entry of the group, in order, and no other node
   * changes.
   */
  lemma HtmlGroupBroadcast(doc: seq<Node>, attr: string, es: seq<XmlEntry>)
    ensures ApplyHtmlGroups(doc, [attr], es).Err?
        <==> forall k :: 0 <= k < |doc| ==> !IsHtmlContentFor(doc[k], attr)
    ensures ApplyHtmlGroups(doc, [attr], es).Err? ==> ApplyHtmlGroups(doc, [attr], es).error == NoHtmlContent(attr)
    ensures ApplyHtmlGroups(doc, [attr], es).Ok? ==>
      forall k :: 0 <= k < |doc| ==>
        ApplyHtmlGroups(doc, [attr], es).value[k]
        == if IsHtmlContentFor(doc[k], attr) then ApplyToNode(doc[k], Members(es, ByAttribute, attr)) else doc[k]
  {
    var targets := HtmlNodesFrom(doc, attr, 0);
    if |targets| == 0 {
      assert forall k :: 0 <= k < |doc| ==> !IsHtmlContentFor(doc[k], attr);
    } else {
      assert targets[0] in targets;
      BroadcastEffect(doc, targets, Members(es, ByAttribute, attr));
      assert [attr][1..] == [];
    }
  }

  /** Duplicated containers end identical in payload: each holds the group's last translation. */
  lemma BroadcastSamePayload(doc: seq<Node>, attr: string, es: seq<XmlEntry>, k1: nat, k2: nat)
    requires ApplyHtmlGroups(doc, [attr], es).Ok?
    requires k1 < |doc| && k2 < |doc| && IsHtmlContentFor(doc[k1], attr) && IsHtmlContentFor(doc[k2], attr)
    requires exists e :: e in es && e.attribute == attr
    ensures ApplyHtmlGroups(doc, [attr], es).value[k1].text == ApplyHtmlGroups(doc, [attr], es).value[k2].text
    ensures var group := Members(es, ByAttribute, attr);
      group != [] && ApplyHtmlGroups(doc, [attr], es).value[k1].text == Some(group[|group| - 1].translation)
  {
    HtmlGroupBroadcast(doc, attr, es);
    var e :| e in es && e.attribute == attr;
    MembersExact(es, ByAttribute, attr, e);
  }

  // ---------------------------------------------------------------------------
  // Properties: groups do not disturb each other's ordinals
  // ---------------------------------------------------------------------------

  /** `d` is `doc` with at most the payloads of `tag`'s nodes rewritten. */
  ghost predicate OnlyPayloadsOf(doc: seq<Node>, d: seq<Node>, tag: string)
  {
    |d| == |doc| &&
    forall k :: 0 <= k < |doc| ==>
      && d[k].tag == doc[k].tag && d[k].parent == doc[k].parent && d[k].tagAttr == doc[k].tagAttr
      && (doc[k].tag != tag ==> d[k] == doc[k])
  }

  lemma {:induction false} OrdinalsOnlyPayloadsOf(doc: seq<Node>, tag: string, nodes: seq<nat>, es: seq<XmlEntry>)
    requires forall k :: k in nodes ==> k < |doc| && doc[k].tag == tag
    requires ApplyOrdinals(doc, tag, nodes, es).Ok?
    ensures OnlyPayloadsOf(doc, ApplyOrdinals(doc, tag, nodes, es).value, tag)
    decreases |es|
  {
    if es != [] {
      var j := PyIndex(|nodes|, es[0].nodeIdx).value;
      assert nodes[j] in nodes;
      var next := doc[nodes[j] := SetPayload(doc[nodes[j]], es[0])];
      OrdinalsOnlyPayloadsOf(next, tag, nodes, es[1..]);
    }
  }

  lemma {:induction false} BroadcastOnlyPayloadsOf(doc: seq<Node>, targets: seq<nat>, es: seq<XmlEntry>)
    requires forall k :: k in targets ==> k < |doc| && doc[k].tag == HtmlContent
    ensures OnlyPayloadsOf(doc, Broadcast(doc, targets, es), HtmlContent)
    decreases |targets|
  {
    if targets != [] {
      assert targets[0] in targets;
      var next := doc[targets[0] := ApplyToNode(doc[targets[0]], es)];
      assert forall k :: k in targets[1..] ==> k in targets;
      BroadcastOnlyPayloadsOf(next, targets[1..], es);
    }
  }

  lemma {:induction false} HtmlGroupsOnlyPayloadsOf(doc: seq<Node>, attrs: seq<string>, es: seq<XmlEntry>)
    requires ApplyHtmlGroups(doc, attrs, es).Ok?
    ensures OnlyPayloadsOf(doc, ApplyHtmlGroups(doc, attrs, es).value, HtmlContent)
    decreases |attrs|
  {
    if attrs != [] {
      var targets := HtmlNodesFrom(doc, attrs[0], 0);
      var next := Broadcast(doc, targets, Members(es, ByAttribute, attrs[0]));
      BroadcastOnlyPayloadsOf(doc, targets, Members(es, ByAttribute, attrs[0]));
      HtmlGroupsOnlyPayloadsOf(next, attrs[1..], es);
    }
  }

  /** A tag group rewrites payloads of its own tag's nodes and nothing else. */
  lemma TagGroupOnlyPayloadsOf(doc: seq<Node>, tag: string, es: seq<XmlEntry>)
    requires ApplyTagGroup(doc, tag, es).Ok?
    ensures OnlyPayloadsOf(doc, ApplyTagGroup(doc, tag, es).value, tag)
  {
    if tag == HtmlContent {
      HtmlGroupsOnlyPayloadsOf(doc, GroupKeys(es, ByAttribute), es);
    } else {
      var nodes := EligibleFrom(doc, tag, 0).value;
      OrdinalsOnlyPayloadsOf(doc, tag, nodes, es);
    }
  }

  /** The eligible list of a tag depends only on that tag's nodes. */
  lemma {:induction false} EligibleDependsOnTag(doc: seq<Node>, d: seq<Node>, tag: string, other: string, from: nat)
    requires tag != other && OnlyPayloadsOf(doc, d, other) && from <= |doc|
    ensures EligibleFrom(d, tag, from) == EligibleFrom(doc, tag, from)
    decreases |doc| - from
  {
    if from < |doc| {
      EligibleDependsOnTag(doc, d, tag, other, from + 1);
    }
  }

  /**
   * Ordinal stability: applying the group of one tag leaves the eligible
   * list of every other tag as it was, so each group's ordinals mean what
   * they meant in the document as parsed.
   */
  lemma OtherGroupsKeepOrdinals(doc: seq<Node>, tag: string, es: seq<XmlEntry>, other: string)
    requires tag != other && ApplyTagGroup(doc, tag, es).Ok?
    ensures EligibleFrom(ApplyTagGroup(doc, tag, es).value, other, 0) == EligibleFrom(doc, other, 0)
  {
    TagGroupOnlyPayloadsOf(doc, tag, es);
    EligibleDependsOnTag(doc, ApplyTagGroup(doc, tag, es).value, other, tag, 0);
  }

  lemma {:induction false} BadOrdinalAbortsGroups(doc: seq<Node>, tags: seq<string>, entries: seq<XmlEntry>,
                                                  e: XmlEntry, nodes: seq<nat>)
    requires e in entries && e.nodeTag != HtmlContent && e.nodeTag in tags && Distinct(tags)
    requires EligibleFrom(doc, e.nodeTag, 0) == Ok(nodes) && PyIndex(|nodes|, e.nodeIdx).None?
    ensures ApplyTagGroups(doc, tags, entries).Err?
    decreases |tags|
  {
    var group := Members(entries, ByTag, tags[0]);
    if tags[0] == e.nodeTag {
      MembersExact(entries, ByTag, e.nodeTag, e);
      var j :| 0 <= j < |group| && group[j] == e;
      BadOrdinalRaises(doc, e.nodeTag, nodes, group, j);
    } else {
      match ApplyTagGroup(doc, tags[0], group)
      case Err(_) =>
      case Ok(next) =>
        OtherGroupsKeepOrdinals(doc, tags[0], group, e.nodeTag);
        assert e.nodeTag in tags[1..];
        DistinctTail(tags);
        BadOrdinalAbortsGroups(next, tags[1..], entries, e, nodes);
    }
  }

  /**
   * Fatal ordinals: an entry whose ordinal is outside its tag's eligible
   * list in the parsed document makes the whole file raise, whatever the
   * other groups do, so nothing of that file is written.
   */
  lemma BadOrdinalAbortsFile(doc: seq<Node>, entries: seq<XmlEntry>, e: XmlEntry, nodes: seq<nat>)
    requires e in entries && e.nodeTag != HtmlContent
    requires EligibleFrom(doc, e.nodeTag, 0) == Ok(nodes) && PyIndex(|nodes|, e.nodeIdx).None?
    ensures ApplyXmlSpec(doc, entries).Err?
  {
    var j :| 0 <= j < |entries| && entries[j] == e;
    GroupKeysExact(entries, ByTag, e.nodeTag);
    GroupKeysDistinct(entries, ByTag);
    BadOrdinalAbortsGroups(doc, GroupKeys(entries, ByTag), entries, e, nodes);
  }

  /** Structure kept, payloads rewritten only on nodes whose tag is one of `tags`. */
  ghost predicate OnlyPayloadsOfTags(doc: seq<Node>, d: seq<Node>, tags: seq<string>)
  {
    |d| == |doc| &&
    forall k :: 0 <= k < |doc| ==>
      && d[k].tag == doc[k].tag && d[k].parent == doc[k].parent && d[k].tagAttr == doc[k].tagAttr
      && (doc[k].tag !in tags ==> d[k] == doc[k])
  }

  lemma {:induction false} TagGroupsOnlyPayloads(doc: seq<Node>, tags: seq<string>, entries: seq<XmlEntry>)
    requires ApplyTagGroups(doc, tags, entries).Ok?
    ensures OnlyPayloadsOfTags(doc, ApplyTagGroups(doc, tags, entries).value, tags)
    decreases |tags|
  {
    if tags != [] {
      var group := Members(entries, ByTag, tags[0]);
      var next := ApplyTagGroup(doc, tags[0], group).value;
      TagGroupOnlyPayloadsOf(doc, tags[0], group);
      TagGroupsOnlyPayloads(next, tags[1..], entries);
      assert forall t :: t in tags[1..] ==> t in tags;
    }
  }

  /**
   * What a file's application can change: no node is added, removed,
   * renamed or moved, and only payloads of nodes whose tag has entries are
   * rewritten; every other node is written back exactly as it was parsed.
   */
  lemma XmlOnlyRewritesPayloads(doc: seq<Node>, entries: seq<XmlEntry>, k: nat)
    requires ApplyXmlSpec(doc, entries).Ok? && k < |doc|
    ensures |ApplyXmlSpec(doc, entries).value| == |doc|
    ensures var n := ApplyXmlSpec(doc, entries).value[k];
      n.tag == doc[k].tag && n.parent == doc[k].parent && n.tagAttr == doc[k].tagAttr
    ensures (forall e :: e in entries ==> e.nodeTag != doc[k].tag) ==> ApplyXmlSpec(doc, entries).value[k] == doc[k]
  {
    TagGroupsOnlyPayloads(doc, GroupKeys(entries, ByTag), entries);
    GroupKeysExact(entries, ByTag, doc[k].tag);
  }

  /**
   * Over the remaining attribute groups: an `htmlContent` node receives the
   * whole group of its own attribute, if that attribute is still to come,
   * and no other group touches it.
   */
  lemma {:induction false} HtmlGroupsNodeEffect(cur: seq<Node>, attrs: seq<string>, es: seq<XmlEntry>, k: nat)
    requires ApplyHtmlGroups(cur, attrs, es).Ok? && k < |cur| && Distinct(attrs)
    ensures ApplyHtmlGroups(cur, attrs, es).value[k]
        == if cur[k].tag == HtmlContent && cur[k].tagAttr.Some? && cur[k].tagAttr.value in attrs
           then ApplyToNode(cur[k], Members(es, ByAttribute, cur[k].tagAttr.value))
           else cur[k]
    decreases |attrs|
  {
    if attrs != [] {
      var targets := HtmlNodesFrom(cur, attrs[0], 0);
      var next := Broadcast(cur, targets, Members(es, ByAttribute, attrs[0]));
      BroadcastEffect(cur, targets, Members(es, ByAttribute, attrs[0]));
      DistinctTail(attrs);
      HtmlGroupsNodeEffect(next, attrs[1..], es, k);
    }
  }

  /** Over the remaining tag groups: an `htmlContent` node is written by the `htmlContent` group alone. */
  lemma {:induction false} TagGroupsHtmlEffect(cur: seq<Node>, tags: seq<string>, entries: seq<XmlEntry>, k: nat)
    requires ApplyTagGroups(cur, tags, entries).Ok? && k < |cur|
    requires cur[k].tag == HtmlContent && HtmlContent in tags && Distinct(tags)
    ensures var group := Members(entries, ByTag, HtmlContent);
      ApplyTagGroups(cur, tags, entries).value[k]
        == if cur[k].tagAttr.Some? then ApplyToNode(cur[k], Members(group, ByAttribute, cur[k].tagAttr.value)) else cur[k]
    decreases |tags|
  {
    var group := Members(entries, ByTag, tags[0]);
    var next := ApplyTagGroup(cur, tags[0], group).value;
    TagGroupOnlyPayloadsOf(cur, tags[0], group);
    DistinctTail(tags);
    if tags[0] == HtmlContent {
      var attrs := GroupKeys(group, ByAttribute);
      GroupKeysDistinct(group, ByAttribute);
      HtmlGroupsNodeEffect(cur, attrs, group, k);
      if cur[k].tagAttr.Some? && cur[k].tagAttr.value !in attrs {
        NewKeyHasNoMembers(group, ByAttribute, cur[k].tagAttr.value);
      }
      TagGroupsOnlyPayloads(next, tags[1..], entries);
    } else {
      TagGroupsHtmlEffect(next, tags[1..], entries, k);
    }
  }

  /**
   * What a file does to an `htmlContent` node: it receives, in order, every
   * `htmlContent` entry whose attribute is its `tag` attribute, and ends
   * with the last one's translation; one without such entries, or without
   * a `tag` attribute, is written back as it was.
   */
  lemma XmlHtmlEffect(doc: seq<Node>, entries: seq<XmlEntry>, k: nat)
    requires ApplyXmlSpec(doc, entries).Ok? && k < |doc| && doc[k].tag == HtmlContent
    ensures var group := Members(entries, ByTag, HtmlContent);
      ApplyXmlSpec(doc, entries).value[k]
        == if doc[k].tagAttr.Some? then ApplyToNode(doc[k], Members(group, ByAttribute, doc[k].tagAttr.value)) else doc[k]
  {
    var tags := GroupKeys(entries, ByTag);
    GroupKeysDistinct(entries, ByTag);
    if HtmlContent in tags {
      TagGroupsHtmlEffect(doc, tags, entries, k);
    } else {
      NewKeyHasNoMembers(entries, ByTag, HtmlContent);
      TagGroupsOnlyPayloads(doc, tags, entries);
    }
  }

  // ---------------------------------------------------------------------------
  // Properties: when a file raises
  // ---------------------------------------------------------------------------

  /**
   * An entry that cannot be applied to the document as parsed: for
   * `htmlContent`, no node carries its attribute; for any other tag, the
   * eligible list cannot be built or its ordinal is out of range for it.
   */
  predicate EntryFails(doc: seq<Node>, e: XmlEntry)
  {
    if e.nodeTag == HtmlContent then HtmlNodesFrom(doc, e.attribute, 0) == []
    else
      match EligibleFrom(doc, e.nodeTag, 0)
      case Err(_) => true
      case Ok(nodes) => PyIndex(|nodes|, e.nodeIdx).None?
  }

  /** The attribute query depends only on tags and attributes, which payload writes keep. */
  lemma {:induction false} HtmlNodesKeep(doc: seq<Node>, d: seq<Node>, tag: string, attr: string, from: nat)
    requires OnlyPayloadsOf(doc, d, tag) && from <= |doc|
    ensures HtmlNodesFrom(d, attr, from) == HtmlNodesFrom(doc, attr, from)
    decreases |doc| - from
  {
    if from < |doc| {
      HtmlNodesKeep(doc, d, tag, attr, from + 1);
    }
  }

  /** An entry of another tag fails after a group exactly when it failed before. */
  lemma EntryFailsKept(doc: seq<Node>, d: seq<Node>, tag: string, e: XmlEntry)
    requires OnlyPayloadsOf(doc, d, tag) && e.nodeTag != tag
    ensures EntryFails(d, e) == EntryFails(doc, e)
  {
    HtmlNodesKeep(doc, d, tag, e.attribute, 0);
    if e.nodeTag != HtmlContent {
      EligibleDependsOnTag(doc, d, e.nodeTag, tag, 0);
    }
  }

  /** The `htmlContent` attribute groups raise exactly when one attribute has no node. */
  lemma {:induction false} HtmlGroupsFailIff(cur: seq<Node>, attrs: seq<string>, es: seq<XmlEntry>)
    ensures ApplyHtmlGroups(cur, attrs, es).Err?
        <==> exists i :: 0 <= i < |attrs| && HtmlNodesFrom(cur, attrs[i], 0) == []
    decreases |attrs|
  {
    if attrs != [] {
      var targets := HtmlNodesFrom(cur, attrs[0], 0);
      if |targets| > 0 {
        var group := Members(es, ByAttribute, attrs[0]);
        var next := Broadcast(cur, targets, group);
        BroadcastOnlyPayloadsOf(cur, targets, group);
        HtmlGroupsFailIff(next, attrs[1..], es);
        forall i | 0 <= i < |attrs[1..]|
          ensures HtmlNodesFrom(next, attrs[1..][i], 0) == HtmlNodesFrom(cur, attrs[i + 1], 0)
        {
          HtmlNodesKeep(cur, next, HtmlContent, attrs[i + 1], 0);
        }
        if exists i :: 0 <= i < |attrs| && HtmlNodesFrom(cur, attrs[i], 0) == [] {
          var i :| 0 <= i < |attrs| && HtmlNodesFrom(cur, attrs[i], 0) == [];
          assert attrs[1..][i - 1] == attrs[i];
        }
      } else {
        assert HtmlNodesFrom(cur, attrs[0], 0) == [];
      }
    }
  }

  /** One tag group raises exactly when one of its entries cannot be applied. */
  lemma TagGroupFailsIff(cur: seq<Node>, tag: string, group: seq<XmlEntry>)
    requires group != [] && forall e :: e in group ==> e.nodeTag == tag
    ensures ApplyTagGroup(cur, tag, group).Err? <==> exists e :: e in group && EntryFails(cur, e)
  {
    if tag == HtmlContent {
      var attrs := GroupKeys(group, ByAttribute);
      HtmlGroupsFailIff(cur, attrs, group);
      if exists i :: 0 <= i < |attrs| && HtmlNodesFrom(cur, attrs[i], 0) == [] {
        var i :| 0 <= i < |attrs| && HtmlNodesFrom(cur, attrs[i], 0) == [];
        GroupKeysExact(group, ByAttribute, attrs[i]);
        var j :| 0 <= j < |group| && KeyOf(group[j], ByAttribute) == attrs[i];
        assert group[j] in group && EntryFails(cur, group[j]);
      }
      if exists e :: e in group && EntryFails(cur, e) {
        var e :| e in group && EntryFails(cur, e);
        var j :| 0 <= j < |group| && group[j] == e;
        assert KeyOf(group[j], ByAttribute) == e.attribute;
        GroupKeysExact(group, ByAttribute, e.attribute);
        var i :| 0 <= i < |attrs| && attrs[i] == e.attribute;
      }
    } else {
      match EligibleFrom(cur, tag, 0)
      case Err(_) =>
        assert group[0] in group && EntryFails(cur, group[0]);
      case Ok(nodes) =>
        OrdinalsFailIff(cur, tag, nodes, group);
        if exists j :: 0 <= j < |group| && PyIndex(|nodes|, group[j].nodeIdx).None? {
          var j :| 0 <= j < |group| && PyIndex(|nodes|, group[j].nodeIdx).None?;
          assert group[j] in group && EntryFails(cur, group[j]);
        }
        if exists e :: e in group && EntryFails(cur, e) {
          var e :| e in group && EntryFails(cur, e);
          var j :| 0 <= j < |group| && group[j] == e;
          assert PyIndex(|nodes|, group[j].nodeIdx).None?;
        }
    }
  }

  /** The remaining tag groups raise exactly when one of their entries cannot be applied to the current document. */
  lemma {:induction false} TagGroupsFailIff(cur: seq<Node>, tags: seq<string>, entries: seq<XmlEntry>)
    requires Distinct(tags) && forall t :: t in tags ==> t in GroupKeys(entries, ByTag)
    ensures ApplyTagGroups(cur, tags, entries).Err?
        <==> exists e :: e in entries && e.nodeTag in tags && EntryFails(cur, e)
    decreases |tags|
  {
    if tags != [] {
      var tag := tags[0];
      var group := Members(entries, ByTag, tag);
      GroupKeysExact(entries, ByTag, tag);
      var j :| 0 <= j < |entries| && KeyOf(entries[j], ByTag) == tag;
      MembersExact(entries, ByTag, tag, entries[j]);
      forall e | e in group ensures e.nodeTag == tag {
        MembersExact(entries, ByTag, tag, e);
      }
      TagGroupFailsIff(cur, tag, group);
      if ApplyTagGroup(cur, tag, group).Err? {
        var e :| e in group && EntryFails(cur, e);
        MembersExact(entries, ByTag, tag, e);
      } else {
        var next := ApplyTagGroup(cur, tag, group).value;
        TagGroupOnlyPayloadsOf(cur, tag, group);
        DistinctTail(tags);
        TagGroupsFailIff(next, tags[1..], entries);
        forall e | e in entries && e.nodeTag in tags
          ensures EntryFails(cur, e) <==> e.nodeTag in tags[1..] && EntryFails(next, e)
        {
          if e.nodeTag == tag {
            MembersExact(entries, ByTag, tag, e);
          } else {
            EntryFailsKept(cur, next, tag, e);
          }
        }
      }
    }
  }

  /**
   * When a file raises: `apply_xml` aborts exactly when some entry cannot
   * be applied to the document as parsed, whatever the order of the groups,
   * and with every entry applicable the file is written.
   */
  lemma XmlFailsIff(doc: seq<Node>, entries: seq<XmlEntry>)
    ensures ApplyXmlSpec(doc, entries).Err? <==> exists e :: e in entries && EntryFails(doc, e)
  {
    var tags := GroupKeys(entries, ByTag);
    GroupKeysDistinct(entries, ByTag);
    forall e | e in entries ensures e.nodeTag in tags {
      var j :| 0 <= j < |entries| && entries[j] == e;
      assert KeyOf(entries[j], ByTag) == e.nodeTag;
      GroupKeysExact(entries, ByTag, e.nodeTag);
    }
    TagGroupsFailIff(doc, tags, entries);
  }
}
