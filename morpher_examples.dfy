/** The worked examples of the morpher's documentation, proved in the
    model: the template and its parse `doc` are fixed by the preconditions,
    and the result of `transform` is computed. */
module MorpherExamples {
  import opened Strings
  import opened Markup
  import opened Ramaze
  import opened MorpherFacts

  // ---------------------------------------------------------------------
  // `<a if="@foo">x</a>`

  lemma IfHtml(e: Node)
    requires e == Elem("a", [Attr("if", "@foo")], [Text("x")])
    ensures ToHtml(e) == "<a if=\"@foo\">x</a>"
  {
    assert AttrsHtml(e.attrs) == " if=\"@foo\"" by {
      assert AttrsHtml(e.attrs) == AttrHtml(e.attrs[0]) + AttrsHtml([]);
    }
    assert ChildrenHtml(e.children) == "x" by {
      assert ChildrenHtml(e.children) == ToHtml(e.children[0]) + ChildrenHtml([]);
    }
    var open := "<" + "a" + AttrsHtml(e.attrs) + ">";
    assert open == "<a if=\"@foo\">";
  }

  lemma IfStripped(e: Node)
    requires e == Elem("a", [Attr("if", "@foo")], [Text("x")])
    ensures ToHtml(RemoveAttr(e, "if")) == "<a>x</a>"
  {
    assert RemoveAttr(e, "if") == Elem("a", [], [Text("x")]);
    assert ChildrenHtml(e.children) == "x" by {
      assert ChildrenHtml(e.children) == ToHtml(e.children[0]) + ChildrenHtml([]);
    }
  }

  lemma IfWrap(c: string)
    requires c == "<a>x</a>"
    ensures "<?r " + "if" + " " + "@foo" + " ?>" + c + "<?r end ?>"
         == "<?r if @foo ?><a>x</a><?r end ?>"
  {
    var a := "<?r " + "if" + " " + "@foo" + " ?>";
    assert a == "<?r if @foo ?>";
  }

  /** The documented `if` example: `<a if="@foo">x</a>` becomes
      `<?r if @foo ?><a>x</a><?r end ?>`. */
  lemma IfExample(template: string, doc: seq<Node>)
    requires template == "<a if=\"@foo\">x</a>"
    requires doc == [Elem("a", [Attr("if", "@foo")], [Text("x")])]
    ensures Transformed(false, [Morph("if", StatementPattern)], template, true, doc)
         == "<?r if @foo ?><a>x</a><?r end ?>"
  {
    var e := doc[0];
    IfHtml(e);
    IfStripped(e);
    TransformStatement(e, "if", "@foo");
    IfWrap(ToHtml(RemoveAttr(e, "if")));
  }

  // ---------------------------------------------------------------------
  // `<div times="3">#{_t}</div>`

  lemma TimesHtml(e: Node)
    requires e == Elem("div", [Attr("times", "3")], [Text("#{_t}")])
    ensures ToHtml(e) == "<div times=\"3\">#{_t}</div>"
  {
    assert AttrsHtml(e.attrs) == " times=\"3\"" by {
      assert AttrsHtml(e.attrs) == AttrHtml(e.attrs[0]) + AttrsHtml([]);
    }
    assert ChildrenHtml(e.children) == "#{_t}" by {
      assert ChildrenHtml(e.children) == ToHtml(e.children[0]) + ChildrenHtml([]);
    }
    var open := "<" + "div" + AttrsHtml(e.attrs) + ">";
    assert open == "<div times=\"3\">";
    assert open + ChildrenHtml(e.children) == "<div times=\"3\">#{_t}";
  }

  lemma TimesStripped(e: Node)
    requires e == Elem("div", [Attr("times", "3")], [Text("#{_t}")])
    ensures ToHtml(RemoveAttr(e, "times")) == "<div>#{_t}</div>"
  {
    assert RemoveAttr(e, "times") == Elem("div", [], [Text("#{_t}")]);
    assert ChildrenHtml(e.children) == "#{_t}" by {
      assert ChildrenHtml(e.children) == ToHtml(e.children[0]) + ChildrenHtml([]);
    }
  }

  lemma TimesWrap(c: string)
    requires c == "<div>#{_t}</div>"
    ensures "<?r " + "3" + "." + "times" + " do |" + "_t" + "| ?>" + c + "<?r end ?>"
         == "<?r 3.times do |_t| ?><div>#{_t}</div><?r end ?>"
  {
    var a := "<?r " + "3" + "." + "times" + " do |" + "_t" + "| ?>";
    assert a == "<?r 3.times do |_t| ?>";
    assert a + c == "<?r 3.times do |_t| ?><div>#{_t}</div>";
  }

  /** The documented `times` example: `<div times="3">#{_t}</div>` becomes
      `<?r 3.times do |_t| ?><div>#{_t}</div><?r end ?>`. */
  lemma TimesExample(template: string, doc: seq<Node>)
    requires template == "<div times=\"3\">#{_t}</div>"
    requires doc == [Elem("div", [Attr("times", "3")], [Text("#{_t}")])]
    ensures Transformed(false, [Morph("times", BlockPattern("_t"))], template, true, doc)
         == "<?r 3.times do |_t| ?><div>#{_t}</div><?r end ?>"
  {
    var e := doc[0];
    TimesHtml(e);
    TimesStripped(e);
    TransformBlock(e, "_t", "times", "3");
    TimesWrap(ToHtml(RemoveAttr(e, "times")));
  }

  // ---------------------------------------------------------------------
  // The shipped table

  lemma CandidatesOne(m: Morph, template: string)
    ensures Candidates([m], template) == if Contains(template, Key(m)) then [m] else []
  {
    assert [m][..0] == [];
  }

  /** The candidate filter on the shipped table, entry by entry. */
  lemma DefaultCandidatesSplit(template: string)
    ensures Candidates(DefaultMorphs, template)
         == Candidates([DefaultMorphs[0]], template) + Candidates([DefaultMorphs[1]], template)
          + Candidates([DefaultMorphs[2]], template) + Candidates([DefaultMorphs[3]], template)
          + Candidates([DefaultMorphs[4]], template)
  {
    var ms := DefaultMorphs;
    assert ms == [ms[0]] + [ms[1]] + [ms[2]] + [ms[3]] + [ms[4]];
    CandidatesAppend([ms[0]], [ms[1]], template);
    CandidatesAppend([ms[0]] + [ms[1]], [ms[2]], template);
    CandidatesAppend([ms[0]] + [ms[1]] + [ms[2]], [ms[3]], template);
    CandidatesAppend([ms[0]] + [ms[1]] + [ms[2]] + [ms[3]], [ms[4]], template);
  }

  lemma DefaultKeys()
    ensures Key(DefaultMorphs[0]) == "if="
    ensures Key(DefaultMorphs[1]) == "unless="
    ensures Key(DefaultMorphs[2]) == "for="
    ensures Key(DefaultMorphs[3]) == "each="
    ensures Key(DefaultMorphs[4]) == "times="
  {
  }

  lemma IfHasIf(t: string)
    requires t == "<a if=\"@foo\">x</a>"
    ensures Contains(t, "if=")
  {
    var rest := "\"@foo\">x</a>";
    assert StartsWith("if=", "if=");
    assert t == "<a " + "if=" + rest;
    ContainsWithin("<a ", "if=", rest, "if=");
  }

  /** `for=` does not occur in `<a if="@foo">x</a>`: its `f`s are followed
      by `=` and by `oo`. */
  lemma ForPieces(p1: string, p2: string, p3: string)
    requires p1 == "<a i" && p2 == "=\"@" && p3 == "oo\">x</a>"
    ensures !Contains(p1 + (['f'] + p2 + (['f'] + p3 + [])), "for=")
  {
    assert !Contains([], "for=");
    NotContainsMismatch('f', p3, 1, [], "for=");
    NotContainsMismatch('f', p2, 0, ['f'] + p3 + [], "for=");
    ConcatNotContains(p1, ['f'] + p2 + (['f'] + p3 + []), "for=");
  }

  lemma IfSplit(t: string)
    requires t == "<a if=\"@foo\">x</a>"
    ensures t == "<a i" + (['f'] + "=\"@" + (['f'] + "oo\">x</a>" + []))
  {
  }

  lemma IfNoFor(t: string)
    requires t == "<a if=\"@foo\">x</a>"
    ensures !Contains(t, "for=")
  {
    IfSplit(t);
    ForPieces("<a i", "=\"@", "oo\">x</a>");
  }

  /** `unless=`, `each=` and `times=` cannot occur in
      `<a if="@foo">x</a>`: it has no `u`, `e` or `t`. */
  lemma IfNoOthers(t: string)
    requires t == "<a if=\"@foo\">x</a>"
    ensures !Contains(t, "unless=") && !Contains(t, "each=") && !Contains(t, "times=")
  {
    NoHeadNotContains(t, "unless=");
    NoHeadNotContains(t, "each=");
    NoHeadNotContains(t, "times=");
  }

  /** With the shipped table, only `if` is a candidate for
      `<a if="@foo">x</a>`. */
  lemma DefaultCandidates(t: string)
    requires t == "<a if=\"@foo\">x</a>"
    ensures Candidates(DefaultMorphs, t) == [Morph("if", StatementPattern)]
  {
    IfHasIf(t);
    IfNoFor(t);
    IfNoOthers(t);
    DefaultKeys();
    DefaultCandidatesSplit(t);
    var ms := DefaultMorphs;
    CandidatesOne(ms[0], t);
    CandidatesOne(ms[1], t);
    CandidatesOne(ms[2], t);
    CandidatesOne(ms[3], t);
    CandidatesOne(ms[4], t);
  }

  /** The `if` example through the shipped table: the other four rules
      are filtered out and the result is the same. */
  lemma DefaultIfExample(template: string, doc: seq<Node>)
    requires template == "<a if=\"@foo\">x</a>"
    requires doc == [Elem("a", [Attr("if", "@foo")], [Text("x")])]
    ensures Transformed(false, DefaultMorphs, template, true, doc)
         == "<?r if @foo ?><a>x</a><?r end ?>"
  {
    DefaultCandidates(template);
    IfHasIf(template);
    CandidatesOne(Morph("if", StatementPattern), template);
    IfExample(template, doc);
  }

  /** A text without the first letters of the shipped keys (`i`, `u`,
      `f`, `e`, `t`) holds none of the keys. */
  lemma NoKeyLetters(t: string)
    requires 'i' !in t && 'u' !in t && 'f' !in t && 'e' !in t && 't' !in t
    ensures !Contains(t, "if=") && !Contains(t, "unless=") && !Contains(t, "for=")
    ensures !Contains(t, "each=") && !Contains(t, "times=")
  {
    NoHeadNotContains(t, "if=");
    NoHeadNotContains(t, "unless=");
    NoHeadNotContains(t, "for=");
    NoHeadNotContains(t, "each=");
    NoHeadNotContains(t, "times=");
  }

  /** None of the shipped keys occurs in `<p class="x">y</p>`. */
  lemma PlainNoKeys(t: string)
    requires t == "<p class=\"x\">y</p>"
    ensures !Contains(t, "if=") && !Contains(t, "unless=") && !Contains(t, "for=")
    ensures !Contains(t, "each=") && !Contains(t, "times=")
  {
    assert 'i' !in t && 'u' !in t && 'f' !in t && 'e' !in t && 't' !in t;
    NoKeyLetters(t);
  }

  /** A template with no control attribute, `<p class="x">y</p>`, comes
      back unchanged under the shipped table whatever the parser does, and
      the morpher does not switch to its stub even if the parser cannot be
      loaded. */
  lemma NoMorphExample(template: string, parserLoads: bool, doc: seq<Node>)
    requires template == "<p class=\"x\">y</p>"
    ensures Transformed(false, DefaultMorphs, template, parserLoads, doc) == template
    ensures !StubbedAfter(false, DefaultMorphs, template, parserLoads)
  {
    PlainNoKeys(template);
    DefaultKeys();
    DefaultCandidatesSplit(template);
    var ms := DefaultMorphs;
    CandidatesOne(ms[0], template);
    CandidatesOne(ms[1], template);
    CandidatesOne(ms[2], template);
    CandidatesOne(ms[3], template);
    CandidatesOne(ms[4], template);
  }
}
