/**
 * The part of the page the selector touches, as values: a flat sequence of
 * element nodes for <head> and one for the rest of the document, each node
 * reduced to its id and its text. Document order is the head's nodes followed
 * by the body's.
 */
module Dom {

  /** An element as the selector sees it: its id attribute ("" when it has none) and its text. */
  datatype Node = Node(id: string, text: string)

  /** The document: the children of <head>, then every other element. */
  datatype Page = Page(head: seq<Node>, body: seq<Node>)

  /** The fixed id of the single style element the selector owns. */
  const StyleElementId: string := "__current_lang_styles"

  /** The nodes of a page in document order. */
  function Nodes(p: Page): seq<Node>
  {
    p.head + p.body
  }

  /** The ids of the nodes, position by position. */
  function Ids(nodes: seq<Node>): seq<string>
  {
    seq(|nodes|, i requires 0 <= i < |nodes| => nodes[i].id)
  }

  /** How many nodes carry the given id. */
  function CountId(nodes: seq<Node>, id: string): nat
  {
    if nodes == [] then 0
    else (if nodes[0].id == id then 1 else 0) + CountId(nodes[1..], id)
  }

  /** No node carries the id exactly when it is counted zero times. */
  lemma {:induction false} CountIdZero(nodes: seq<Node>, id: string)
    ensures CountId(nodes, id) == 0 <==> id !in Ids(nodes)
  {
    if nodes != [] {
      CountIdZero(nodes[1..], id);
      assert Ids(nodes) == [nodes[0].id] + Ids(nodes[1..]);
    }
  }

  /** The nodes without every node that carries the given id, order kept. */
  function Without(nodes: seq<Node>, id: string): (rest: seq<Node>)
    ensures |rest| + CountId(nodes, id) == |nodes|
    ensures CountId(rest, id) == 0
  {
    if nodes == [] then []
    else
      assert nodes == [nodes[0]] + nodes[1..];
      var rest := Without(nodes[1..], id);
      if nodes[0].id == id then rest
      else
        assert ([nodes[0]] + rest)[1..] == rest;
        [nodes[0]] + rest
  }

  /** Without drops exactly the nodes that carry the id and keeps every other one. */
  lemma {:induction false} WithoutKeeps(nodes: seq<Node>, id: string, n: Node)
    ensures n in Without(nodes, id) <==> n in nodes && n.id != id
  {
    if nodes != [] {
      WithoutKeeps(nodes[1..], id, n);
      assert nodes == [nodes[0]] + nodes[1..];
    }
  }

  /** Counting distributes over concatenation. */
  lemma {:induction false} CountIdAppend(xs: seq<Node>, ys: seq<Node>, id: string)
    ensures CountId(xs + ys, id) == CountId(xs, id) + CountId(ys, id)
  {
    if xs == [] {
      assert xs + ys == ys;
    } else {
      assert (xs + ys)[1..] == xs[1..] + ys;
      CountIdAppend(xs[1..], ys, id);
    }
  }

  /** Removing by id distributes over concatenation. */
  lemma {:induction false} WithoutAppend(xs: seq<Node>, ys: seq<Node>, id: string)
    ensures Without(xs + ys, id) == Without(xs, id) + Without(ys, id)
  {
    if xs == [] {
      assert xs + ys == ys;
    } else {
      assert (xs + ys)[1..] == xs[1..] + ys;
      WithoutAppend(xs[1..], ys, id);
    }
  }

  /** A sequence where no node carries the id loses nothing. */
  lemma {:induction false} WithoutAbsent(nodes: seq<Node>, id: string)
    requires CountId(nodes, id) == 0
    ensures Without(nodes, id) == nodes
  {
    if nodes != [] {
      WithoutAbsent(nodes[1..], id);
      assert nodes == [nodes[0]] + nodes[1..];
    }
  }

  /** Removing by id twice removes nothing more. */
  lemma WithoutTwice(nodes: seq<Node>, id: string)
    ensures Without(Without(nodes, id), id) == Without(nodes, id)
  {
    WithoutAbsent(Without(nodes, id), id);
  }

  /**
   * Removing the one node at index i that carries the id, when no other node
   * carries it, is the same as removing every node with that id.
   */
  lemma {:induction false} RemoveUnique(nodes: seq<Node>, i: nat, id: string)
    requires i < |nodes| && nodes[i].id == id
    requires CountId(nodes, id) <= 1
    ensures nodes[..i] + nodes[i + 1..] == Without(nodes, id)
    decreases i, 1
  {
    if i == 0 {
      WithoutAbsent(nodes[1..], id);
      assert nodes[..0] + nodes[1..] == nodes[1..];
    } else {
      RemoveUniqueLater(nodes, i, id);
    }
  }

  /** The step of RemoveUnique past a first node that does not carry the id. */
  lemma {:induction false} RemoveUniqueLater(nodes: seq<Node>, i: nat, id: string)
    requires 0 < i < |nodes| && nodes[i].id == id
    requires CountId(nodes, id) <= 1
    ensures nodes[..i] + nodes[i + 1..] == Without(nodes, id)
    decreases i, 0
  {
    var tail := nodes[1..];
    assert Ids(tail)[i - 1] == id;
    CountIdZero(tail, id);
    assert nodes[0].id != id;
    RemoveUnique(tail, i - 1, id);
    DropAfterFirst(nodes, i);
  }

  /** Dropping index i > 0 keeps the first node in front of the tail with index i - 1 dropped. */
  lemma DropAfterFirst(nodes: seq<Node>, i: nat)
    requires 0 < i < |nodes|
    ensures nodes[..i] + nodes[i + 1..] == [nodes[0]] + (nodes[1..][..i - 1] + nodes[1..][i..])
  {
    assert nodes[1..][..i - 1] == nodes[1..i];
    assert nodes[1..][i..] == nodes[i + 1..];
    assert nodes[..i] == [nodes[0]] + nodes[1..i];
  }

  /**
   * The element found at index i of the head is the only one with the id:
   * slicing it out of the head removes it, and the body has none to lose.
   */
  lemma RemoveFromHead(head: seq<Node>, body: seq<Node>, i: nat, id: string)
    requires i < |head| && head[i].id == id
    requires CountId(head + body, id) <= 1
    ensures head[..i] + head[i + 1..] == Without(head, id)
    ensures Without(body, id) == body
  {
    CountIdAppend(head, body, id);
    assert Ids(head)[i] == id;
    CountIdZero(head, id);
    RemoveUnique(head, i, id);
    WithoutAbsent(body, id);
  }

  /**
   * The element found at index k of the body is the only one with the id:
   * slicing it out of the body removes it, and the head has none to lose.
   */
  lemma RemoveFromBody(head: seq<Node>, body: seq<Node>, k: nat, id: string)
    requires k < |body| && body[k].id == id
    requires CountId(head + body, id) <= 1
    ensures body[..k] + body[k + 1..] == Without(body, id)
    ensures Without(head, id) == head
  {
    CountIdAppend(head, body, id);
    assert Ids(body)[k] == id;
    CountIdZero(body, id);
    RemoveUnique(body, k, id);
    WithoutAbsent(head, id);
  }

  /** When the lookup finds no element with the id, neither part loses anything. */
  lemma NothingToRemove(head: seq<Node>, body: seq<Node>, id: string)
    requires id !in Ids(head + body)
    ensures Without(head, id) == head && Without(body, id) == body
  {
    CountIdZero(head + body, id);
    CountIdAppend(head, body, id);
    WithoutAbsent(head, id);
    WithoutAbsent(body, id);
  }

  /**
   * What setLanguageStyles leaves behind when at most one node carries the
   * style id: every node with that id is dropped, and an added one holding
   * the text is appended as the last child of <head>. With two or more such
   * nodes the lookup finds only the first, and this is not what the code
   * does. The contract counts the nodes: as many are dropped as carried the
   * id, one is added, and no other node carries the id afterwards.
   */
  function ReplaceStyle(p: Page, style: string): (q: Page)
    ensures q.head != [] && q.head[|q.head| - 1] == Node(StyleElementId, style)
    ensures |q.head| + |q.body| + CountId(p.head, StyleElementId) + CountId(p.body, StyleElementId)
         == |p.head| + |p.body| + 1
    ensures CountId(q.head[..|q.head| - 1], StyleElementId) == 0 && CountId(q.body, StyleElementId) == 0
  {
    var kept := Without(p.head, StyleElementId);
    assert (kept + [Node(StyleElementId, style)])[..|kept|] == kept;
    Page(kept + [Node(StyleElementId, style)], Without(p.body, StyleElementId))
  }

  /**
   * After a replacement exactly one node carries the style id, and it is the
   * last child of <head> and holds the text.
   */
  lemma ReplaceStyleSingleton(p: Page, style: string)
    ensures CountId(Nodes(ReplaceStyle(p, style)), StyleElementId) == 1
    ensures var head := ReplaceStyle(p, style).head;
            head != [] && head[|head| - 1] == Node(StyleElementId, style)
  {
    var q := ReplaceStyle(p, style);
    var added := [Node(StyleElementId, style)];
    assert CountId(added, StyleElementId) == 1;
    CountIdAppend(Without(p.head, StyleElementId), added, StyleElementId);
    CountIdAppend(q.head, q.body, StyleElementId);
  }

  /**
   * A replacement drops only nodes with the style id and adds only the new
   * one at the end of <head>: every other node of the document stays, with
   * its content, in the same order.
   */
  lemma ReplaceStyleKeepsOthers(p: Page, style: string)
    ensures var q := ReplaceStyle(p, style);
            && q.head[..|q.head| - 1] == Without(p.head, StyleElementId)
            && q.body == Without(p.body, StyleElementId)
            && Without(Nodes(q), StyleElementId) == Without(Nodes(p), StyleElementId)
  {
    var q := ReplaceStyle(p, style);
    var id := StyleElementId;
    assert q.head[..|q.head| - 1] == Without(p.head, id);
    ReplacedHeadWithout(p.head, style);
    WithoutTwice(p.body, id);
    WithoutAppend(q.head, q.body, id);
    WithoutAppend(p.head, p.body, id);
  }

  /** The new head, read without the style id, is the old head read the same way. */
  lemma ReplacedHeadWithout(head: seq<Node>, style: string)
    ensures Without(Without(head, StyleElementId) + [Node(StyleElementId, style)], StyleElementId)
         == Without(head, StyleElementId)
  {
    var kept := Without(head, StyleElementId);
    var added := [Node(StyleElementId, style)];
    assert Without(added, StyleElementId) == [];
    WithoutAppend(kept, added, StyleElementId);
    WithoutTwice(head, StyleElementId);
    assert kept + [] == kept;
  }

  /**
   * A replacement overwrites the one before it completely: replacing with a
   * then with b leaves the page that replacing with b alone leaves.
   */
  lemma ReplaceStyleOverwrite(p: Page, a: string, b: string)
    requires CountId(Nodes(p), StyleElementId) <= 1
    ensures ReplaceStyle(ReplaceStyle(p, a), b) == ReplaceStyle(p, b)
  {
    ReplacedHeadWithout(p.head, a);
    WithoutTwice(p.body, StyleElementId);
  }

  /** Replacing twice with the same text is the same as replacing once. */
  lemma ReplaceStyleIdempotent(p: Page, style: string)
    requires CountId(Nodes(p), StyleElementId) <= 1
    ensures ReplaceStyle(ReplaceStyle(p, style), style) == ReplaceStyle(p, style)
  {
    ReplaceStyleOverwrite(p, style, style);
  }
}
