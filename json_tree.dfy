/** The parse tree jsonc-parser builds for a keybindings document, and the two
    edits the editor applies to it. A document's text is represented by its
    tree: the model keeps what the edits do to the root's elements and leaves
    comments and whitespace out (an element an edit does not touch is kept as
    it is). */
module JsonTree {
  import opened Wrappers

  /** A JSON(C) value: an object (its properties in source order, a key may
      repeat), an array, a string, or any other value (numbers, booleans, null). */
  datatype Node =
    | Object(props: seq<(string, Node)>)
    | Array(children: seq<Node>)
    | Str(value: string)
    | Other

  /** The tree of a document's text: `None` when the text holds no JSON value
      at all (`parseTree` returns `undefined`), otherwise its root. */
  type Doc = Option<Node>

  /** `node.children.length`: the properties of an object, the elements of an
      array, and none for a string or other scalar. */
  function ChildCount(n: Node): nat
  {
    match n
    case Object(props) => |props|
    case Array(children) => |children|
    case _ => 0
  }

  /** `applyEdits(text, modify(text, [i], undefined))` on an array root:
      element `i` is removed and every other element is kept, in order. */
  function RemoveElement(children: seq<Node>, i: nat): (r: seq<Node>)
    requires i < |children|
    ensures |r| == |children| - 1
    ensures forall k :: 0 <= k < i ==> r[k] == children[k]
    ensures forall k :: i <= k < |r| ==> r[k] == children[k + 1]
  {
    children[..i] + children[i + 1..]
  }

  /** `applyEdits(text, modify(text, [i], v, {isArrayInsertion: true}))`.
      Into an array root the value is inserted at index `i`, or appended when
      `i` is past the end. A text without a value becomes the array `[v]`.
      Into any other root jsonc-parser refuses the edit (it throws): `None`. */
  function InsertElement(doc: Doc, i: nat, v: Node): (r: Option<Node>)
    ensures r.Some? <==> doc.None? || doc.value.Array?
    ensures doc.None? ==> r == Some(Array([v]))
    ensures doc.Some? && doc.value.Array? && i >= |doc.value.children| ==>
      r == Some(Array(doc.value.children + [v]))
  {
    match doc
    case None => Some(Array([v]))
    case Some(Array(children)) =>
      var j := if i <= |children| then i else |children|;
      assert j == |children| ==> children[..j] + [v] + children[j..] == children + [v];
      Some(Array(children[..j] + [v] + children[j..]))
    case Some(_) => None
  }
}
