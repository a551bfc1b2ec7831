/** The parsed template fragment the morpher walks, standing in for the HTML
    parser library: nodes are text or elements with an ordered attribute
    list, serialised back to markup by `ToHtml`. Only attribute lookup,
    attribute removal and serialisation are used by the morpher. */
module Markup {
  import opened Strings

  datatype Attr = Attr(name: string, value: string)

  /** `Text` stands for every non-element node (text, comments, processing
      instructions, doctypes), carrying its markup verbatim. */
  datatype Node =
    | Text(raw: string)
    | Elem(tag: string, attrs: seq<Attr>, children: seq<Node>)

  datatype Option<T> = None | Some(value: T)

  /** The value of the first attribute called `name`. */
  function Lookup(attrs: seq<Attr>, name: string): (r: Option<string>)
  {
    if attrs == [] then None
    else if attrs[0].name == name then Some(attrs[0].value)
    else Lookup(attrs[1..], name)
  }

  /** The attribute list with every attribute called `name` dropped, the
      others kept in order. */
  function Without(attrs: seq<Attr>, name: string): (r: seq<Attr>)
  {
    if attrs == [] then []
    else if attrs[0].name == name then Without(attrs[1..], name)
    else [attrs[0]] + Without(attrs[1..], name)
  }

  /** `child[name]`: an element's attribute; other nodes carry none. */
  function GetAttr(n: Node, name: string): (r: Option<string>)
  {
    if n.Elem? then Lookup(n.attrs, name) else None
  }

  /** `child.remove_attribute(name)`. */
  function RemoveAttr(n: Node, name: string): (r: Node)
  {
    if n.Elem? then n.(attrs := Without(n.attrs, name)) else n
  }

  function AttrHtml(a: Attr): (r: string)
  {
    " " + a.name + "=\"" + a.value + "\""
  }

  function AttrsHtml(attrs: seq<Attr>): (r: string)
  {
    if attrs == [] then "" else AttrHtml(attrs[0]) + AttrsHtml(attrs[1..])
  }

  /** `to_html`: an element is written as its start tag with its attributes
      in order, its children, and its end tag. */
  function ToHtml(n: Node): (r: string)
    ensures n.Elem? ==> |r| >= 2 * |n.tag| + 5 && r[0] == '<'
    ensures n.Elem? && n.tag != [] ==> r[1] == n.tag[0]
    decreases n, 1
  {
    match n
    case Text(raw) => raw
    case Elem(tag, attrs, children) =>
      "<" + tag + AttrsHtml(attrs) + ">" + ChildrenHtml(children) + "</" + tag + ">"
  }

  function ChildrenHtml(ns: seq<Node>): (r: string)
    decreases ns, 0
  {
    if ns == [] then "" else ToHtml(ns[0]) + ChildrenHtml(ns[1..])
  }

  // ---------------------------------------------------------------------
  // Attribute removal

  /** Removing `name` from an attribute list leaves no `name` behind, keeps
      every other attribute's value, and keeps the list unchanged when
      `name` was absent. */
  lemma {:induction false} WithoutLookup(attrs: seq<Attr>, name: string)
    ensures Lookup(Without(attrs, name), name) == None
    ensures forall other :: other != name ==>
              Lookup(Without(attrs, name), other) == Lookup(attrs, other)
    ensures Lookup(attrs, name) == None ==> Without(attrs, name) == attrs
  {
    if attrs != [] {
      WithoutLookup(attrs[1..], name);
    }
  }

  /** Dropping an attribute that is present shortens the serialised list. */
  lemma {:induction false} WithoutShortens(attrs: seq<Attr>, name: string)
    requires Lookup(attrs, name).Some?
    ensures |AttrsHtml(Without(attrs, name))| < |AttrsHtml(attrs)|
  {
    WithoutNotLonger(attrs[1..], name);
    if attrs[0].name != name {
      WithoutShortens(attrs[1..], name);
    }
  }

  lemma {:induction false} WithoutNotLonger(attrs: seq<Attr>, name: string)
    ensures |AttrsHtml(Without(attrs, name))| <= |AttrsHtml(attrs)|
  {
    if attrs != [] {
      WithoutNotLonger(attrs[1..], name);
    }
  }

  /** What `%content` is built from: removing one attribute keeps the tag,
      the children and every other attribute, leaves none called `name`, and
      changes the serialised form exactly when the attribute was there. */
  lemma RemoveAttrKeeps(n: Node, name: string)
    requires n.Elem?
    ensures RemoveAttr(n, name).Elem?
    ensures RemoveAttr(n, name).tag == n.tag
    ensures RemoveAttr(n, name).children == n.children
    ensures GetAttr(RemoveAttr(n, name), name) == None
    ensures forall other :: other != name ==>
              GetAttr(RemoveAttr(n, name), other) == GetAttr(n, other)
    ensures ToHtml(RemoveAttr(n, name)) == ToHtml(n) <==> GetAttr(n, name) == None
  {
    WithoutLookup(n.attrs, name);
    if GetAttr(n, name).Some? {
      WithoutShortens(n.attrs, name);
    }
  }

  // ---------------------------------------------------------------------
  // Serialised attributes

  /** A present attribute shows up as `name=` in the serialised list. */
  lemma {:induction false} LookupInAttrsHtml(attrs: seq<Attr>, name: string)
    requires Lookup(attrs, name).Some?
    ensures Contains(AttrsHtml(attrs), name + "=")
  {
    var a := attrs[0];
    if a.name == name {
      assert Contains(name + "=", name + "=") by {
        assert StartsWith(name + "=", name + "=");
      }
      assert AttrHtml(a) + AttrsHtml(attrs[1..])
          == " " + (name + "=") + ("\"" + a.value + "\"" + AttrsHtml(attrs[1..]));
      ContainsWithin(" ", name + "=", "\"" + a.value + "\"" + AttrsHtml(attrs[1..]), name + "=");
    } else {
      LookupInAttrsHtml(attrs[1..], name);
      ContainsWithin(AttrHtml(a), AttrsHtml(attrs[1..]), "", name + "=");
      assert AttrHtml(a) + AttrsHtml(attrs[1..]) + "" == AttrsHtml(attrs);
    }
  }

  /** The link between the parse and the cheap pre-check: an element carrying
      attribute `name` has `name=` in its serialised form. */
  lemma AttrInHtml(n: Node, name: string)
    requires GetAttr(n, name).Some?
    ensures Contains(ToHtml(n), name + "=")
  {
    LookupInAttrsHtml(n.attrs, name);
    var rest := ">" + ChildrenHtml(n.children) + "</" + n.tag + ">";
    ContainsWithin("<" + n.tag, AttrsHtml(n.attrs), rest, name + "=");
    assert ToHtml(n) == "<" + n.tag + AttrsHtml(n.attrs) + rest;
  }
}
