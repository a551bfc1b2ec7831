/** Ezamar's Morpher: before a template is compiled, every top-level element
    carrying a configured control attribute (`if`, `unless`, `for`, `each`,
    `times`) is replaced, as text, by a control-flow wrapper built from that
    attribute's pattern. */
module Ramaze {
  import opened Strings
  import opened Markup

  /** One entry of the morph table: the attribute name and its pattern. */
  datatype Morph = Morph(name: string, pattern: string)

  const MorphTag: string := "%morph"
  const ExpressionTag: string := "%expression"
  const ContentTag: string := "%content"

  /** The pattern of `if`, `unless` and `for`. */
  const StatementPattern: string :=
    "<?r " + MorphTag + " " + ExpressionTag + " ?>" + ContentTag + "<?r end ?>"

  /** The pattern of `each` and `times`, yielding to the block parameter
      `param` (`_e` and `_t`). */
  function BlockPattern(param: string): (r: string)
  {
    "<?r " + ExpressionTag + "." + MorphTag + " do |" + param + "| ?>" + ContentTag + "<?r end ?>"
  }

  /** The shipped morph table, in its declared order. */
  const DefaultMorphs: seq<Morph> := [
    Morph("if", StatementPattern),
    Morph("unless", StatementPattern),
    Morph("for", StatementPattern),
    Morph("each", BlockPattern("_e")),
    Morph("times", BlockPattern("_t"))
  ]

  /** The text whose presence marks a morph as a candidate: `name=`. */
  function Key(m: Morph): (r: string)
  {
    m.name + "="
  }

  /** The candidate filter: the table entries whose `name=` occurs in the
      template, in table order. */
  function Candidates(table: seq<Morph>, template: string): (r: seq<Morph>)
  {
    if table == [] then []
    else
      var rest := Candidates(table[..|table| - 1], template);
      var m := table[|table| - 1];
      if Contains(template, Key(m)) then rest + [m] else rest
  }

  /** The placeholder fill: `%morph`, then `%expression`, then `%content`,
      each replacing every occurrence. */
  function Fill(pattern: string, name: string, expression: string, content: string): (r: string)
  {
    ReplaceAll(ReplaceAll(ReplaceAll(pattern, MorphTag, name), ExpressionTag, expression),
               ContentTag, content)
  }

  // ---------------------------------------------------------------------
  // The rewrite loop, specified step by step

  /** One step of the inner loop: the current state of a child against one
      candidate morph. When the child is an element carrying the morph's
      attribute, its serialisation `oldHtml` is captured, the attribute is
      removed, the pattern is filled with the stripped serialisation as
      `%content`, and every occurrence of `oldHtml` in the template is
      replaced. Returns the new template and the new state of the child. */
  function MorphStep(template: string, child: Node, m: Morph): (r: (string, Node))
  {
    match GetAttr(child, m.name)
    case None => (template, child)
    case Some(expression) =>
      var oldHtml := ToHtml(child);
      var stripped := RemoveAttr(child, m.name);
      var replacement := Fill(m.pattern, m.name, expression, ToHtml(stripped));
      (ReplaceAll(template, oldHtml, replacement), stripped)
  }

  /** The inner loop: one child against the candidate morphs in order. */
  function MorphChild(template: string, child: Node, morphs: seq<Morph>): (r: (string, Node))
  {
    if morphs == [] then (template, child)
    else
      var (t, c) := MorphChild(template, child, morphs[..|morphs| - 1]);
      MorphStep(t, c, morphs[|morphs| - 1])
  }

  /** The outer loop: the document's direct children in order. */
  function RewriteDoc(template: string, doc: seq<Node>, morphs: seq<Morph>): (r: string)
  {
    if doc == [] then template
    else MorphChild(RewriteDoc(template, doc[..|doc| - 1], morphs), doc[|doc| - 1], morphs).0
  }

  /** The nested rewrite loop over the parsed children of `template` (the
      parse is supplied as `doc`) and the candidate morphs. */
  method Rewrite(template: string, doc: seq<Node>, morphs: seq<Morph>) returns (result: string)
    ensures result == RewriteDoc(template, doc, morphs)
  {
    result := template;
    for i := 0 to |doc|
      invariant result == RewriteDoc(template, doc[..i], morphs)
    {
      assert doc[..i + 1][..i] == doc[..i];
      var child := doc[i];
      if child.Elem? {
        ghost var before := result;
        for j := 0 to |morphs|
          invariant (result, child) == MorphChild(before, doc[i], morphs[..j])
        {
          assert morphs[..j + 1][..j] == morphs[..j];
          var morph := morphs[j];
          var expression := GetAttr(child, morph.name);
          if expression.Some? {
            var oldHtml := ToHtml(child);
            child := RemoveAttr(child, morph.name);
            var replacement := Fill(morph.pattern, morph.name, expression.value, ToHtml(child));
            result := ReplaceAll(result, oldHtml, replacement);
          }
        }
        assert morphs[..|morphs|] == morphs;
      } else {
        MorphChildIgnoresText(result, child, morphs);
      }
    }
    assert doc[..|doc|] == doc;
  }

  /** A non-element child is never matched. */
  lemma {:induction false} MorphChildIgnoresText(template: string, child: Node, morphs: seq<Morph>)
    requires !child.Elem?
    ensures MorphChild(template, child, morphs) == (template, child)
  {
    if morphs != [] {
      MorphChildIgnoresText(template, child, morphs[..|morphs| - 1]);
    }
  }

  // ---------------------------------------------------------------------
  // The whole transform

  /** The template `transform` returns. `stubbed` records that the parser
      library failed to load on an earlier call; `parserLoads` says whether
      loading it succeeds on this call; `doc` is its parse of `template`. */
  function Transformed(stubbed: bool, table: seq<Morph>, template: string,
                       parserLoads: bool, doc: seq<Node>): (r: string)
  {
    if stubbed then template
    else
      var candidates := Candidates(table, template);
      if candidates == [] || !parserLoads then template
      else RewriteDoc(template, doc, candidates)
  }

  /** Whether `transform` has been replaced by the stub after this call. */
  function StubbedAfter(stubbed: bool, table: seq<Morph>, template: string, parserLoads: bool): (r: bool)
  {
    stubbed || (Candidates(table, template) != [] && !parserLoads)
  }

  /** Ruby's `Hash#[]=` on the morph table: an existing name keeps its place
      and takes the new pattern, a new name is appended. */
  function Store(table: seq<Morph>, name: string, pattern: string): (r: seq<Morph>)
  {
    if table == [] then [Morph(name, pattern)]
    else if table[0].name == name then [Morph(name, pattern)] + table[1..]
    else [table[0]] + Store(table[1..], name, pattern)
  }

  // ---------------------------------------------------------------------
  // Configuring the table

  /** The pattern a table gives `name`: that of its first entry so named,
      as `Hash#[]` reads it. */
  function PatternOf(table: seq<Morph>, name: string): (r: Option<string>)
  {
    if table == [] then None
    else if table[0].name == name then Some(table[0].pattern)
    else PatternOf(table[1..], name)
  }

  /** The names of a table, in order. */
  function Names(table: seq<Morph>): (r: seq<string>)
    ensures |r| == |table| && forall i :: 0 <= i < |table| ==> r[i] == table[i].name
  {
    if table == [] then [] else [table[0].name] + Names(table[1..])
  }

  /** `table[name] = pattern` behaves as a dictionary store: `name` now
      reads back `pattern`, every other name reads back what it did, and
      the table's names keep their order, with `name` appended only when
      it is new. */
  lemma {:induction false} StoreEffect(table: seq<Morph>, name: string, pattern: string)
    ensures PatternOf(Store(table, name, pattern), name) == Some(pattern)
    ensures forall other :: other != name ==>
              PatternOf(Store(table, name, pattern), other) == PatternOf(table, other)
    ensures Names(Store(table, name, pattern))
         == if name in Names(table) then Names(table) else Names(table) + [name]
  {
    if table != [] && table[0].name != name {
      StoreEffect(table[1..], name, pattern);
      var st := Store(table[1..], name, pattern);
      assert ([table[0]] + st)[1..] == st;
      assert Names(table) == [table[0].name] + Names(table[1..]);
    } else if table != [] {
      assert ([Morph(name, pattern)] + table[1..])[1..] == table[1..];
    }
  }

  /** A Ruby hash holds each name once. */
  predicate DistinctNames(table: seq<Morph>)
  {
    forall i, j :: 0 <= i < j < |table| ==> table[i].name != table[j].name
  }

  /** A store keeps the names distinct: it either overwrites the entry of
      `name` in place or appends `name`, which was absent. */
  lemma {:induction false} StoreKeepsDistinct(table: seq<Morph>, name: string, pattern: string)
    requires DistinctNames(table)
    ensures DistinctNames(Store(table, name, pattern))
  {
    if table != [] && table[0].name != name {
      var rest := table[1..];
      var st := Store(rest, name, pattern);
      StoreKeepsDistinct(rest, name, pattern);
      StoreEffect(rest, name, pattern);
      forall k | 0 <= k < |st|
        ensures st[k].name != table[0].name
      {
        assert Names(st)[k] == st[k].name;
        if k < |rest| {
          assert Names(st)[k] == Names(rest)[k] == table[k + 1].name;
        }
      }
      assert Store(table, name, pattern) == [table[0]] + st;
    } else if table != [] {
      var st := [Morph(name, pattern)] + table[1..];
      assert forall k :: 0 <= k < |st| ==> st[k].name == table[k].name;
    }
  }

  /** The morph class: its configurable table and the one-way switch to the
      identity stub taken when the parser library cannot be loaded. */
  class Morpher {
    var morphs: seq<Morph>
    var stubbed: bool

    /** The table holds each name once, as the Ruby hash it models does. */
    predicate Valid()
      reads this
    {
      DistinctNames(morphs)
    }

    constructor ()
      ensures morphs == DefaultMorphs && !stubbed && Valid()
    {
      morphs := DefaultMorphs;
      stubbed := false;
    }

    /** `trait[:morphs] = table`; an empty table turns morphing off. */
    method SetMorphs(table: seq<Morph>)
      requires DistinctNames(table)
      modifies this`morphs
      ensures morphs == table && Valid()
    {
      morphs := table;
    }

    /** `trait[:morphs][name] = pattern`. */
    method SetMorph(name: string, pattern: string)
      requires Valid()
      modifies this`morphs
      ensures morphs == Store(old(morphs), name, pattern) && Valid()
    {
      StoreKeepsDistinct(morphs, name, pattern);
      morphs := Store(morphs, name, pattern);
    }

    /** `Morpher.transform(template)`. */
    method Transform(template: string, parserLoads: bool, doc: seq<Node>) returns (result: string)
      modifies this`stubbed
      ensures old(stubbed) ==> stubbed && result == template
      ensures stubbed == StubbedAfter(old(stubbed), morphs, template, parserLoads)
      ensures result == Transformed(old(stubbed), morphs, template, parserLoads, doc)
    {
      if stubbed {
        return template;
      }
      var candidates := Candidates(morphs, template);
      if candidates == [] {
        return template;
      }
      if !parserLoads {
        stubbed := true;
        return template;
      }
      result := Rewrite(template, doc, candidates);
    }
  }
}
