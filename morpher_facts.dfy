/** What the morpher promises, proved about the model in module Ramaze. */
module MorpherFacts {
  import opened Strings
  import opened Markup
  import opened Ramaze

  // ---------------------------------------------------------------------
  // The candidate filter and the fast skip

  /** The candidates are exactly the table entries whose `name=` occurs in
      the template. */
  lemma {:induction false} CandidatesExactly(table: seq<Morph>, template: string, m: Morph)
    ensures m in Candidates(table, template) <==> m in table && Contains(template, Key(m))
  {
    if table != [] {
      CandidatesExactly(table[..|table| - 1], template, m);
      assert table == table[..|table| - 1] + [table[|table| - 1]];
    }
  }

  /** The filter keeps table order: filtering a table made of two parts
      filters each part and keeps them in that order. */
  lemma {:induction false} CandidatesAppend(a: seq<Morph>, b: seq<Morph>, template: string)
    ensures Candidates(a + b, template) == Candidates(a, template) + Candidates(b, template)
  {
    if b == [] {
      assert a + b == a;
    } else {
      var c := a + b;
      assert c[..|c| - 1] == a + b[..|b| - 1];
      assert c[|c| - 1] == b[|b| - 1];
      CandidatesAppend(a, b[..|b| - 1], template);
    }
  }

  /** The fast skip: when no `name=` of the table occurs in the template
      (in particular when the table is empty), the template comes back
      unchanged, the parser is not loaded, and the stub state is untouched. */
  lemma FastSkip(stubbed: bool, table: seq<Morph>, template: string, parserLoads: bool, doc: seq<Node>)
    requires forall m :: m in table ==> !Contains(template, Key(m))
    ensures Candidates(table, template) == []
    ensures Transformed(stubbed, table, template, parserLoads, doc) == template
    ensures StubbedAfter(stubbed, table, template, parserLoads) == stubbed
  {
    var c := Candidates(table, template);
    if c != [] {
      CandidatesExactly(table, template, c[0]);
      assert false;
    }
  }

  /** Once the stub is in place, every call returns its input and the stub
      stays. */
  lemma StubIsPermanent(table: seq<Morph>, template: string, parserLoads: bool, doc: seq<Node>)
    ensures Transformed(true, table, template, parserLoads, doc) == template
    ensures StubbedAfter(true, table, template, parserLoads)
  {
  }

  /** The stub is only ever taken by a call that has candidates and cannot
      load the parser. */
  lemma StubbedAfterIff(stubbed: bool, table: seq<Morph>, template: string, parserLoads: bool)
    ensures StubbedAfter(stubbed, table, template, parserLoads) <==>
            stubbed || (!parserLoads && exists m :: m in table && Contains(template, Key(m)))
  {
    var c := Candidates(table, template);
    if c != [] {
      CandidatesExactly(table, template, c[0]);
    }
    if exists m :: m in table && Contains(template, Key(m)) {
      var m :| m in table && Contains(template, Key(m));
      CandidatesExactly(table, template, m);
    }
  }

  // ---------------------------------------------------------------------
  // The placeholder fill

  /** Every placeholder starts with `%`. */
  predicate IsTag(s: string)
  {
    s == MorphTag || s == ExpressionTag || s == ContentTag
  }

  /** The occurrence of a placeholder at the front is replaced. */
  lemma HitTag(tag: string, y: string, v: string)
    requires IsTag(tag)
    ensures ReplaceAll(tag + y, tag, v) == v + ReplaceAll(y, tag, v)
  {
    assert !Contains(tag[..|tag| - 1], tag);
    assert [] + tag[..|tag| - 1] == tag[..|tag| - 1];
    ReplaceAllFirst([], y, tag, v);
    assert [] + tag + y == tag + y;
  }

  /** A different placeholder at the front is kept. */
  lemma SkipTag(other: string, tag: string, y: string, v: string)
    requires IsTag(other) && IsTag(tag) && other != tag
    ensures ReplaceAll(other + y, tag, v) == other + ReplaceAll(y, tag, v)
  {
    assert '%' !in other[1..] by {
      if other == MorphTag {
        assert '%' !in MorphTag[1..];
      } else if other == ExpressionTag {
        assert '%' !in ExpressionTag[1..];
      } else {
        assert '%' !in ContentTag[1..];
      }
    }
    assert other[1] != tag[1];
    assert !StartsWith(other + y, tag) by {
      if |tag| <= |other + y| {
        assert (other + y)[..|tag|][1] == other[1];
      }
    }
    ReplaceAllSkipPiece(other, y, tag, v);
  }

  /** Text without `%` is kept. */
  lemma KeepPlain(x: string, y: string, tag: string, v: string)
    requires IsTag(tag) && '%' !in x
    ensures ReplaceAll(x + y, tag, v) == x + ReplaceAll(y, tag, v)
  {
    assert tag[0] == '%';
    ReplaceAllKeepPrefix(x, y, tag, v);
  }

  /** A piece holding no occurrence of the placeholder, followed by a space
      or a dot (which no placeholder contains), is kept. */
  lemma KeepGuarded(x: string, y: string, tag: string, v: string)
    requires IsTag(tag) && !Contains(x, tag)
    requires y != [] && (y[0] == ' ' || y[0] == '.')
    ensures ReplaceAll(x + y, tag, v) == x + ReplaceAll(y, tag, v)
  {
    assert y[0] !in tag by {
      if tag == MorphTag {
        assert y[0] !in MorphTag;
      } else if tag == ExpressionTag {
        assert y[0] !in ExpressionTag;
      } else {
        assert y[0] !in ContentTag;
      }
    }
    ReplaceAllKeepGuarded(x, y, tag, v);
  }

  /** Such a piece in front of a kept suffix is kept. */
  lemma GuardedThenKept(x: string, y: string, tag: string, v: string)
    requires IsTag(tag) && !Contains(x, tag) && ReplaceAll(y, tag, v) == y
    requires y != [] && (y[0] == ' ' || y[0] == '.')
    ensures ReplaceAll(x + y, tag, v) == x + y
  {
    KeepGuarded(x, y, tag, v);
  }

  /** The closing `<?r end ?>` holds no placeholder. */
  lemma EndKept(tag: string, v: string)
    requires IsTag(tag)
    ensures ReplaceAll("<?r end ?>", tag, v) == "<?r end ?>"
  {
    assert tag[0] == '%';
    NoHeadNotContains("<?r end ?>", tag);
    ReplaceAllNoMatch("<?r end ?>", tag, v);
  }

  /** `%content<?r end ?>` is kept by the two earlier fill steps. */
  lemma ContentEndKept(tag: string, v: string)
    requires IsTag(tag) && tag != ContentTag
    ensures ReplaceAll(ContentTag + "<?r end ?>", tag, v) == ContentTag + "<?r end ?>"
  {
    SkipTag(ContentTag, tag, "<?r end ?>", v);
    EndKept(tag, v);
  }

  /** A plain piece in front of a kept suffix is kept. */
  lemma PlainThenKept(x: string, y: string, tag: string, v: string)
    requires IsTag(tag) && '%' !in x && ReplaceAll(y, tag, v) == y
    ensures ReplaceAll(x + y, tag, v) == x + y
  {
    KeepPlain(x, y, tag, v);
  }

  /** Another placeholder in front of a kept suffix is kept. */
  lemma TagThenKept(other: string, y: string, tag: string, v: string)
    requires IsTag(other) && IsTag(tag) && other != tag && ReplaceAll(y, tag, v) == y
    ensures ReplaceAll(other + y, tag, v) == other + y
  {
    SkipTag(other, tag, y, v);
  }

  /** A pattern holding none of the three placeholders comes out unchanged. */
  lemma FillWithoutPlaceholders(pattern: string, name: string, expression: string, content: string)
    requires !Contains(pattern, MorphTag)
    requires !Contains(pattern, ExpressionTag)
    requires !Contains(pattern, ContentTag)
    ensures Fill(pattern, name, expression, content) == pattern
  {
    ReplaceAllNoMatch(pattern, MorphTag, name);
    ReplaceAllNoMatch(pattern, ExpressionTag, expression);
    ReplaceAllNoMatch(pattern, ContentTag, content);
  }

  /** A placeholder on its own is replaced by its value. */
  lemma TagAlone(tag: string, v: string)
    requires IsTag(tag)
    ensures ReplaceAll(tag, tag, v) == v
  {
    var none: string := [];
    HitTag(tag, none, v);
    assert tag + none == tag;
    assert ReplaceAll(none, tag, v) == [];
  }

  /** `%expression` holds no `%morph`: they part at their second letter. */
  lemma ExpressionHoldsNoMorph()
    ensures !Contains(ExpressionTag, MorphTag)
  {
    assert !Contains([], MorphTag);
    assert ExpressionTag == [ExpressionTag[0]] + ExpressionTag[1..] + [];
    NotContainsMismatch(ExpressionTag[0], ExpressionTag[1..], 0, [], MorphTag);
  }

  /** The fill runs in the order `%morph`, `%expression`, `%content`: a
      morph name that itself reads `%expression` is replaced by the
      expression in the second step, and an expression that itself reads
      `%content` is replaced by the content in the third. */
  lemma FillOrder(name: string, expression: string, content: string)
    requires !Contains(expression, ContentTag)
    ensures Fill(MorphTag, ExpressionTag, expression, content) == expression
    ensures Fill(ExpressionTag, name, ContentTag, content) == content
  {
    TagAlone(MorphTag, ExpressionTag);
    TagAlone(ExpressionTag, expression);
    ReplaceAllNoMatch(expression, ContentTag, content);
    ExpressionHoldsNoMorph();
    ReplaceAllNoMatch(ExpressionTag, MorphTag, name);
    TagAlone(ExpressionTag, ContentTag);
    TagAlone(ContentTag, content);
  }

  /** Regrouping a right-nested concatenation (kept symbolic so that the
      solver does not expand the literal pieces). */
  lemma Flatten7(a: string, b: string, c: string, d: string, e: string, f: string, g: string)
    ensures a + (b + (c + (d + (e + (f + g))))) == a + b + c + d + e + f + g
  {
  }

  lemma Flatten9(a: string, b: string, c: string, d: string, e: string, f: string,
                 g: string, h: string, i: string)
    ensures a + (b + (c + (d + (e + (f + (g + (h + i))))))) == a + b + c + d + e + f + g + h + i
  {
  }

  /** The `if` / `unless` / `for` pattern filled: the statement opens, the
      content follows, and `end` closes. Each chained replacement only has
      to find nothing of the later placeholders in what the earlier ones
      inserted. */
  lemma FillStatement(name: string, expression: string, content: string)
    requires !Contains(name, ExpressionTag) && !Contains(name, ContentTag)
    requires !Contains(expression, ContentTag)
    ensures Fill(StatementPattern, name, expression, content)
         == "<?r " + name + " " + expression + " ?>" + content + "<?r end ?>"
  {
    StatementName(name);
    StatementExpression(name, expression);
    StatementContent(name, expression, content);
  }

  lemma StatementName(name: string)
    ensures ReplaceAll(StatementPattern, MorphTag, name)
         == "<?r " + name + " " + ExpressionTag + " ?>" + ContentTag + "<?r end ?>"
  {
    var m, e, c, end := MorphTag, ExpressionTag, ContentTag, "<?r end ?>";
    var t4 := " ?>" + (c + end);
    var t3 := e + t4;
    var t2 := " " + t3;
    ContentEndKept(m, name);
    PlainThenKept(" ?>", c + end, m, name);
    TagThenKept(e, t4, m, name);
    PlainThenKept(" ", t3, m, name);
    HitTag(m, t2, name);
    Flatten7("<?r ", m, " ", e, " ?>", c, end);
    KeepPlain("<?r ", m + t2, m, name);
    Flatten7("<?r ", name, " ", e, " ?>", c, end);
  }

  lemma StatementExpression(name: string, expression: string)
    requires !Contains(name, ExpressionTag)
    ensures ReplaceAll("<?r " + name + " " + ExpressionTag + " ?>" + ContentTag + "<?r end ?>",
                       ExpressionTag, expression)
         == "<?r " + name + " " + expression + " ?>" + ContentTag + "<?r end ?>"
  {
    var e, c, end := ExpressionTag, ContentTag, "<?r end ?>";
    var t2 := " ?>" + (c + end);
    ContentEndKept(e, expression);
    PlainThenKept(" ?>", c + end, e, expression);
    HitTag(e, t2, expression);
    KeepPlain(" ", e + t2, e, expression);
    KeepGuarded(name, " " + (e + t2), e, expression);
    KeepPlain("<?r ", name + (" " + (e + t2)), e, expression);
    Flatten7("<?r ", name, " ", e, " ?>", c, end);
    Flatten7("<?r ", name, " ", expression, " ?>", c, end);
  }

  lemma StatementContent(name: string, expression: string, content: string)
    requires !Contains(name, ContentTag) && !Contains(expression, ContentTag)
    ensures ReplaceAll("<?r " + name + " " + expression + " ?>" + ContentTag + "<?r end ?>",
                       ContentTag, content)
         == "<?r " + name + " " + expression + " ?>" + content + "<?r end ?>"
  {
    var c, end := ContentTag, "<?r end ?>";
    var t1 := " ?>" + (c + end);
    HitTag(c, end, content);
    EndKept(c, content);
    KeepPlain(" ?>", c + end, c, content);
    KeepGuarded(expression, t1, c, content);
    KeepPlain(" ", expression + t1, c, content);
    KeepGuarded(name, " " + (expression + t1), c, content);
    KeepPlain("<?r ", name + (" " + (expression + t1)), c, content);
    Flatten7("<?r ", name, " ", expression, " ?>", c, end);
    Flatten7("<?r ", name, " ", expression, " ?>", content, end);
  }

  /** The `each` / `times` pattern filled: the expression's iterator method
      named by the morph, yielding to `param`, around the content. */
  lemma FillBlock(param: string, name: string, expression: string, content: string)
    requires '%' !in param
    requires !Contains(name, ExpressionTag) && !Contains(name, ContentTag)
    requires !Contains(expression, ContentTag)
    ensures Fill(BlockPattern(param), name, expression, content)
         == "<?r " + expression + "." + name + " do |" + param + "| ?>" + content + "<?r end ?>"
  {
    BlockName(param, name);
    BlockExpression(param, name, expression);
    BlockContent(param, name, expression, content);
  }

  lemma BlockName(param: string, name: string)
    requires '%' !in param
    ensures ReplaceAll(BlockPattern(param), MorphTag, name)
         == "<?r " + ExpressionTag + "." + name + " do |" + param + "| ?>" + ContentTag + "<?r end ?>"
  {
    var m, e, c, end := MorphTag, ExpressionTag, ContentTag, "<?r end ?>";
    var t6 := "| ?>" + (c + end);
    var t5 := param + t6;
    var t4 := " do |" + t5;
    var t2 := "." + (m + t4);
    ContentEndKept(m, name);
    PlainThenKept("| ?>", c + end, m, name);
    PlainThenKept(param, t6, m, name);
    PlainThenKept(" do |", t5, m, name);
    HitTag(m, t4, name);
    KeepPlain(".", m + t4, m, name);
    SkipTag(e, m, t2, name);
    KeepPlain("<?r ", e + t2, m, name);
    Flatten9("<?r ", e, ".", m, " do |", param, "| ?>", c, end);
    Flatten9("<?r ", e, ".", name, " do |", param, "| ?>", c, end);
  }

  lemma BlockExpression(param: string, name: string, expression: string)
    requires '%' !in param && !Contains(name, ExpressionTag)
    ensures ReplaceAll("<?r " + ExpressionTag + "." + name + " do |" + param + "| ?>" + ContentTag + "<?r end ?>",
                       ExpressionTag, expression)
         == "<?r " + expression + "." + name + " do |" + param + "| ?>" + ContentTag + "<?r end ?>"
  {
    var e, c, end := ExpressionTag, ContentTag, "<?r end ?>";
    var t6 := "| ?>" + (c + end);
    var t5 := param + t6;
    var t4 := " do |" + t5;
    var t3 := name + t4;
    var t2 := "." + t3;
    ContentEndKept(e, expression);
    PlainThenKept("| ?>", c + end, e, expression);
    PlainThenKept(param, t6, e, expression);
    PlainThenKept(" do |", t5, e, expression);
    GuardedThenKept(name, t4, e, expression);
    PlainThenKept(".", t3, e, expression);
    HitTag(e, t2, expression);
    KeepPlain("<?r ", e + t2, e, expression);
    Flatten9("<?r ", e, ".", name, " do |", param, "| ?>", c, end);
    Flatten9("<?r ", expression, ".", name, " do |", param, "| ?>", c, end);
  }

  lemma BlockContent(param: string, name: string, expression: string, content: string)
    requires '%' !in param && !Contains(name, ContentTag) && !Contains(expression, ContentTag)
    ensures ReplaceAll("<?r " + expression + "." + name + " do |" + param + "| ?>" + ContentTag + "<?r end ?>",
                       ContentTag, content)
         == "<?r " + expression + "." + name + " do |" + param + "| ?>" + content + "<?r end ?>"
  {
    var c, end := ContentTag, "<?r end ?>";
    var t6 := "| ?>" + (c + end);
    var t5 := param + t6;
    var t4 := " do |" + t5;
    var t3 := name + t4;
    var t2 := "." + t3;
    HitTag(c, end, content);
    EndKept(c, content);
    KeepPlain("| ?>", c + end, c, content);
    KeepPlain(param, t6, c, content);
    KeepPlain(" do |", t5, c, content);
    KeepGuarded(name, t4, c, content);
    KeepPlain(".", t3, c, content);
    KeepGuarded(expression, t2, c, content);
    KeepPlain("<?r ", expression + t2, c, content);
    Flatten9("<?r ", expression, ".", name, " do |", param, "| ?>", c, end);
    Flatten9("<?r ", expression, ".", name, " do |", param, "| ?>", content, end);
  }

  // ---------------------------------------------------------------------
  // The rewrite loop

  /** A child carrying none of the candidate attributes leaves the template
      and itself untouched. This covers non-element children, and elements
      whose candidate attributes sit only on nested elements: the loop looks
      at the document's direct children only. */
  lemma {:induction false} MorphChildUntouched(template: string, child: Node, morphs: seq<Morph>)
    requires forall m :: m in morphs ==> GetAttr(child, m.name) == None
    ensures MorphChild(template, child, morphs) == (template, child)
  {
    if morphs != [] {
      assert morphs[|morphs| - 1] in morphs;
      MorphChildUntouched(template, child, morphs[..|morphs| - 1]);
    }
  }

  /** A document none of whose direct children carries a candidate
      attribute leaves the template unchanged. */
  lemma {:induction false} RewriteDocUntouched(template: string, doc: seq<Node>, morphs: seq<Morph>)
    requires forall i, m :: 0 <= i < |doc| && m in morphs ==> GetAttr(doc[i], m.name) == None
    ensures RewriteDoc(template, doc, morphs) == template
  {
    if doc != [] {
      RewriteDocUntouched(template, doc[..|doc| - 1], morphs);
      MorphChildUntouched(template, doc[|doc| - 1], morphs);
    }
  }

  /** An attribute a child lacks, it still lacks after the inner loop:
      the loop only ever removes attributes. */
  lemma {:induction false} MorphChildKeepsAbsent(template: string, child: Node,
                                                  morphs: seq<Morph>, name: string)
    requires GetAttr(child, name) == None
    ensures GetAttr(MorphChild(template, child, morphs).1, name) == None
  {
    if morphs != [] {
      MorphChildKeepsAbsent(template, child, morphs[..|morphs| - 1], name);
      var c := MorphChild(template, child, morphs[..|morphs| - 1]).1;
      if c.Elem? {
        RemoveAttrKeeps(c, morphs[|morphs| - 1].name);
      }
    }
  }

  /** Dropping from the table morphs whose `name=` is absent from `template`
      changes nothing for a child that carries none of their attributes. */
  lemma {:induction false} MorphChildCandidates(start: string, child: Node,
                                                 table: seq<Morph>, template: string)
    requires forall m :: m in table && !Contains(template, Key(m)) ==> GetAttr(child, m.name) == None
    ensures MorphChild(start, child, Candidates(table, template)) == MorphChild(start, child, table)
  {
    if table != [] {
      var pre, m := table[..|table| - 1], table[|table| - 1];
      assert forall x :: x in pre ==> x in table;
      MorphChildCandidates(start, child, pre, template);
      var rest := Candidates(pre, template);
      if Contains(template, Key(m)) {
        assert (rest + [m])[..|rest|] == rest;
      } else {
        assert m in table;
        MorphChildKeepsAbsent(start, child, pre, m.name);
      }
    }
  }

  /** The same over the document's direct children. */
  lemma {:induction false} RewriteDocCandidates(start: string, doc: seq<Node>,
                                                 table: seq<Morph>, template: string)
    requires forall i, m :: 0 <= i < |doc| && m in table && !Contains(template, Key(m))
               ==> GetAttr(doc[i], m.name) == None
    ensures RewriteDoc(start, doc, Candidates(table, template)) == RewriteDoc(start, doc, table)
  {
    if doc != [] {
      RewriteDocCandidates(start, doc[..|doc| - 1], table, template);
      var before := RewriteDoc(start, doc[..|doc| - 1], table);
      MorphChildCandidates(before, doc[|doc| - 1], table, template);
    }
  }

  /** The candidate pre-check is sound when every direct child's
      serialisation occurs in the template: `transform` then returns what
      the rewrite over the whole table returns, so the filter never drops a
      morph the rewrite would have applied. Where a child's serialisation
      differs from its text in the template (attribute quoting or order
      changed by the parser), the hypothesis fails and so may the check. */
  lemma PreCheckSound(table: seq<Morph>, template: string, doc: seq<Node>)
    requires forall i :: 0 <= i < |doc| ==> Contains(template, ToHtml(doc[i]))
    ensures Transformed(false, table, template, true, doc) == RewriteDoc(template, doc, table)
  {
    forall i, m | 0 <= i < |doc| && m in table && !Contains(template, Key(m))
      ensures GetAttr(doc[i], m.name) == None
    {
      if GetAttr(doc[i], m.name).Some? {
        AttrInHtml(doc[i], m.name);
        ContainsTrans(template, ToHtml(doc[i]), Key(m));
      }
    }
    RewriteDocCandidates(template, doc, table, template);
    if Candidates(table, template) == [] {
      RewriteDocUntouched(template, doc, []);
    }
  }

  /** What one morph does to a child carrying its attribute: the child
      loses exactly that attribute (tag, children and every other attribute
      kept, and its serialisation changes), `%content` is the stripped
      serialisation, and every occurrence of the old serialisation in the
      template is replaced by the filled pattern. */
  lemma MorphStepStrips(template: string, child: Node, m: Morph, expression: string)
    requires GetAttr(child, m.name) == Some(expression)
    ensures child.Elem?
    ensures MorphStep(template, child, m).1 == RemoveAttr(child, m.name)
    ensures MorphStep(template, child, m).1.tag == child.tag
    ensures MorphStep(template, child, m).1.children == child.children
    ensures GetAttr(MorphStep(template, child, m).1, m.name) == None
    ensures forall other :: other != m.name ==>
              GetAttr(MorphStep(template, child, m).1, other) == GetAttr(child, other)
    ensures ToHtml(MorphStep(template, child, m).1) != ToHtml(child)
    ensures MorphStep(template, child, m).0
         == ReplaceAll(template, ToHtml(child),
                       Fill(m.pattern, m.name, expression, ToHtml(RemoveAttr(child, m.name))))
  {
    RemoveAttrKeeps(child, m.name);
  }

  /** If the child's serialisation does not occur in the template, the
      template is unchanged. */
  lemma MorphStepAbsent(template: string, child: Node, m: Morph)
    requires !Contains(template, ToHtml(child))
    ensures MorphStep(template, child, m).0 == template
  {
    if GetAttr(child, m.name).Some? {
      var stripped := RemoveAttr(child, m.name);
      var expression := GetAttr(child, m.name).value;
      ReplaceAllNoMatch(template, ToHtml(child),
                        Fill(m.pattern, m.name, expression, ToHtml(stripped)));
    }
  }

  /** The rewrite is global and string-based: two copies of a morphed
      element's markup are both replaced, identically. */
  lemma MorphStepDuplicates(p: string, mid: string, q: string, child: Node, m: Morph, expression: string)
    requires GetAttr(child, m.name) == Some(expression)
    requires !Contains(p + ToHtml(child)[..|ToHtml(child)| - 1], ToHtml(child))
    requires !Contains(mid + ToHtml(child)[..|ToHtml(child)| - 1], ToHtml(child))
    ensures var h := ToHtml(child);
            var r := Fill(m.pattern, m.name, expression, ToHtml(RemoveAttr(child, m.name)));
            MorphStep(p + h + mid + h + q, child, m).0 == p + r + mid + r + ReplaceAll(q, h, r)
  {
    var h := ToHtml(child);
    var r := Fill(m.pattern, m.name, expression, ToHtml(RemoveAttr(child, m.name)));
    ReplaceAllTwice(p, mid, q, h, r);
  }

  /** An element's whole serialisation is replaced by its rewrite. */
  lemma ReplaceWhole(h: string, r: string)
    requires h != []
    ensures ReplaceAll(h, h, r) == r
  {
    assert !Contains(h[..|h| - 1], h);
    assert [] + h[..|h| - 1] == h[..|h| - 1];
    ReplaceAllFirst([], [], h, r);
    assert [] + h + [] == h;
  }

  /** A template that is exactly one element carrying the morph's
      attribute becomes the filled pattern, with the stripped element as
      `%content`. */
  lemma SingleMorph(e: Node, name: string, pattern: string, expression: string)
    requires GetAttr(e, name) == Some(expression)
    ensures RewriteDoc(ToHtml(e), [e], [Morph(name, pattern)])
         == Fill(pattern, name, expression, ToHtml(RemoveAttr(e, name)))
  {
    var ms := [Morph(name, pattern)];
    var t := ToHtml(e);
    var r := Fill(pattern, name, expression, ToHtml(RemoveAttr(e, name)));
    assert ms[..0] == [];
    assert [e][..0] == [];
    assert RewriteDoc(t, [e], ms) == MorphChild(t, e, ms).0;
    assert MorphChild(t, e, ms) == MorphStep(t, e, ms[0]);
    ReplaceWhole(t, r);
    assert MorphStep(t, e, ms[0]).0 == ReplaceAll(t, t, r);
  }

  /** `transform` on a template that is one element with an `if`-style
      attribute: the statement wraps the element without that attribute. */
  lemma TransformStatement(e: Node, name: string, expression: string)
    requires GetAttr(e, name) == Some(expression)
    requires !Contains(name, ExpressionTag) && !Contains(name, ContentTag)
    requires !Contains(expression, ContentTag)
    ensures Transformed(false, [Morph(name, StatementPattern)], ToHtml(e), true, [e])
         == "<?r " + name + " " + expression + " ?>" + ToHtml(RemoveAttr(e, name)) + "<?r end ?>"
  {
    var m := Morph(name, StatementPattern);
    AttrInHtml(e, name);
    assert [m][..0] == [];
    assert Candidates([m], ToHtml(e)) == [m];
    SingleMorph(e, name, StatementPattern, expression);
    FillStatement(name, expression, ToHtml(RemoveAttr(e, name)));
  }

  /** `transform` on a template that is one element with an `each`- or
      `times`-style attribute. */
  lemma TransformBlock(e: Node, param: string, name: string, expression: string)
    requires GetAttr(e, name) == Some(expression)
    requires '%' !in param
    requires !Contains(name, ExpressionTag) && !Contains(name, ContentTag)
    requires !Contains(expression, ContentTag)
    ensures Transformed(false, [Morph(name, BlockPattern(param))], ToHtml(e), true, [e])
         == "<?r " + expression + "." + name + " do |" + param + "| ?>"
            + ToHtml(RemoveAttr(e, name)) + "<?r end ?>"
  {
    var m := Morph(name, BlockPattern(param));
    AttrInHtml(e, name);
    assert [m][..0] == [];
    assert Candidates([m], ToHtml(e)) == [m];
    SingleMorph(e, name, BlockPattern(param), expression);
    FillBlock(param, name, expression, ToHtml(RemoveAttr(e, name)));
  }

  // ---------------------------------------------------------------------
  // Nesting order

  /** The opening statement `<?r name expression ?>` holds no `<` followed
      by `c` when neither the name nor the expression does and `c` is
      neither `?` nor a space: the only `<` the pattern itself brings is
      followed by `?`, and a `<` at the end of the name or expression is
      followed by a space. */
  lemma OpenNotContains(name: string, expression: string, p: string)
    requires |p| == 2 && p[0] == '<' && p[1] != '?' && p[1] != ' '
    requires !Contains(name, p) && !Contains(expression, p)
    ensures !Contains("<?r " + name + " " + expression + " ?>", p)
  {
    assert !Contains([], p);
    NotContainsMismatch('<', "?r ", 0, [], p);
    assert ['<'] + "?r " + [] == "<?r ";
    NoHeadNotContains(" ", p);
    NoHeadNotContains(" ?>", p);
    NotContainsPairConcat("<?r ", name, p);
    NotContainsPairConcat("<?r " + name, " ", p);
    NotContainsPairConcat("<?r " + name + " ", expression, p);
    NotContainsPairConcat("<?r " + name + " " + expression, " ?>", p);
  }

  /** The closing `<?r end ?>` holds no element markup. */
  lemma EndNotContains(content: string)
    requires |content| >= 2 && content[0] == '<' && content[1] != '?'
    ensures !Contains("<?r end ?>", content)
  {
    var end: string := "?r end ?>";
    assert !Contains([], content);
    NotContainsMismatch('<', end, 0, [], content);
    assert ['<'] + end + [] == "<?r end ?>";
  }

  /** The opening `<?r expression.name do |param| ?>` of the block pattern
      holds no `<` followed by `c` when none of the three filled pieces does
      and `c` is none of `?`, space, `.` and `|`, the characters that follow
      a piece in the pattern. */
  lemma BlockOpenNotContains(expression: string, name: string, param: string, p: string)
    requires |p| == 2 && p[0] == '<' && p[1] != '?' && p[1] != ' ' && p[1] != '.' && p[1] != '|'
    requires !Contains(expression, p) && !Contains(name, p) && !Contains(param, p)
    ensures !Contains("<?r " + expression + "." + name + " do |" + param + "| ?>", p)
  {
    assert !Contains([], p);
    NotContainsMismatch('<', "?r ", 0, [], p);
    assert ['<'] + "?r " + [] == "<?r ";
    NoHeadNotContains(".", p);
    NoHeadNotContains(" do |", p);
    NoHeadNotContains("| ?>", p);
    NotContainsPairConcat("<?r ", expression, p);
    NotContainsPairConcat("<?r " + expression, ".", p);
    NotContainsPairConcat("<?r " + expression + ".", name, p);
    NotContainsPairConcat("<?r " + expression + "." + name, " do |", p);
    NotContainsPairConcat("<?r " + expression + "." + name + " do |", param, p);
    NotContainsPairConcat("<?r " + expression + "." + name + " do |" + param, "| ?>", p);
  }

  /** Wrapping `content` as `open + content + <?r end ?>` and then replacing
      `content` by `inner` puts `inner` inside the wrapper, provided the
      opener holds no copy of the first two characters of `content` (an
      element's `<` and the first letter of its tag) and does not end in
      `<`. */
  lemma RewrapInside(open: string, content: string, inner: string)
    requires |content| >= 2 && content[0] == '<' && content[1] != '?'
    requires !Contains(open, content[..2]) && (open != [] ==> open[|open| - 1] != '<')
    ensures ReplaceAll(open + content + "<?r end ?>", content, inner)
         == open + inner + "<?r end ?>"
  {
    var cut := content[..|content| - 1];
    assert !Contains(cut, content);
    NotContainsByPrefix(open, cut, content);
    ReplaceAllFirst(open, "<?r end ?>", content, inner);
    EndNotContains(content);
    ReplaceAllNoMatch("<?r end ?>", content, inner);
  }

  /** Two morphs against a document of one element: the second runs on the
      template and the element the first left behind. */
  lemma TwoMorphs(template: string, e: Node, m1: Morph, m2: Morph)
    ensures RewriteDoc(template, [e], [m1, m2])
         == MorphStep(MorphStep(template, e, m1).0, MorphStep(template, e, m1).1, m2).0
  {
    var ms := [m1, m2];
    assert ms[..1] == [m1] && ms[..1][..0] == [];
    assert [e][..0] == [];
    assert MorphChild(template, e, ms[..1]) == MorphStep(template, e, m1);
    assert RewriteDoc(template, [e], ms) == MorphChild(template, e, ms).0;
  }

  /** An element carrying two candidate attributes, the first with the
      statement pattern and the second with any pattern: the morph that
      comes first in the table becomes the outer wrapper, the second one's
      filled pattern sits inside it, and the element there carries neither
      attribute. */
  lemma NestingOrder(e: Node, first: string, v1: string, second: string, v2: string, p2: string)
    requires e.Elem? && e.tag != [] && e.tag[0] != '?' && e.tag[0] != ' '
    requires first != second
    requires GetAttr(e, first) == Some(v1) && GetAttr(e, second) == Some(v2)
    requires !Contains(first, ExpressionTag) && !Contains(first, ContentTag)
    requires !Contains(v1, ContentTag)
    requires !Contains(first, ['<', e.tag[0]]) && !Contains(v1, ['<', e.tag[0]])
    ensures RewriteDoc(ToHtml(e), [e], [Morph(first, StatementPattern), Morph(second, p2)])
         == "<?r " + first + " " + v1 + " ?>"
            + Fill(p2, second, v2, ToHtml(RemoveAttr(RemoveAttr(e, first), second)))
            + "<?r end ?>"
  {
    var m1, m2 := Morph(first, StatementPattern), Morph(second, p2);
    var e1 := RemoveAttr(e, first);
    var h0, h1 := ToHtml(e), ToHtml(e1);
    var w2 := Fill(p2, second, v2, ToHtml(RemoveAttr(e1, second)));
    var open := "<?r " + first + " " + v1 + " ?>";
    var w1 := open + h1 + "<?r end ?>";
    assert GetAttr(e1, second) == Some(v2) && e1.Elem? && e1.tag == e.tag by {
      RemoveAttrKeeps(e, first);
    }
    assert h1[..2] == ['<', e.tag[0]];
    // the first morph: the whole template becomes the outer wrapper
    assert MorphStep(h0, e, m1) == (w1, e1) by {
      FillStatement(first, v1, h1);
      ReplaceWhole(h0, w1);
    }
    // the second morph: the stripped element inside it becomes the inner one
    assert MorphStep(w1, e1, m2).0 == open + w2 + "<?r end ?>" by {
      OpenNotContains(first, v1, h1[..2]);
      RewrapInside(open, h1, w2);
    }
    TwoMorphs(h0, e, m1, m2);
  }

  /** The common nesting `<li if="@show" each="@items">`: a statement rule
      over a block rule gives the statement around the block around the
      element stripped of both attributes. */
  lemma StatementOverBlock(e: Node, first: string, v1: string,
                           param: string, second: string, v2: string)
    requires e.Elem? && e.tag != [] && e.tag[0] != '?' && e.tag[0] != ' '
    requires first != second
    requires GetAttr(e, first) == Some(v1) && GetAttr(e, second) == Some(v2)
    requires !Contains(first, ExpressionTag) && !Contains(first, ContentTag)
    requires !Contains(v1, ContentTag)
    requires !Contains(first, ['<', e.tag[0]]) && !Contains(v1, ['<', e.tag[0]])
    requires '%' !in param
    requires !Contains(second, ExpressionTag) && !Contains(second, ContentTag)
    requires !Contains(v2, ContentTag)
    ensures RewriteDoc(ToHtml(e), [e], [Morph(first, StatementPattern), Morph(second, BlockPattern(param))])
         == "<?r " + first + " " + v1 + " ?>"
            + ("<?r " + v2 + "." + second + " do |" + param + "| ?>"
               + ToHtml(RemoveAttr(RemoveAttr(e, first), second)) + "<?r end ?>")
            + "<?r end ?>"
  {
    NestingOrder(e, first, v1, second, v2, BlockPattern(param));
    FillBlock(param, second, v2, ToHtml(RemoveAttr(RemoveAttr(e, first), second)));
  }

  /** The same with a block rule (`each`, `times`) first in the table: the
      block becomes the outer wrapper. */
  lemma NestingBlockOuter(e: Node, param: string, first: string, v1: string,
                          second: string, v2: string, p2: string)
    requires e.Elem? && e.tag != []
    requires e.tag[0] != '?' && e.tag[0] != ' ' && e.tag[0] != '.' && e.tag[0] != '|'
    requires first != second
    requires GetAttr(e, first) == Some(v1) && GetAttr(e, second) == Some(v2)
    requires '%' !in param
    requires !Contains(first, ExpressionTag) && !Contains(first, ContentTag)
    requires !Contains(v1, ContentTag)
    requires !Contains(first, ['<', e.tag[0]]) && !Contains(v1, ['<', e.tag[0]])
    requires !Contains(param, ['<', e.tag[0]])
    ensures RewriteDoc(ToHtml(e), [e], [Morph(first, BlockPattern(param)), Morph(second, p2)])
         == "<?r " + v1 + "." + first + " do |" + param + "| ?>"
            + Fill(p2, second, v2, ToHtml(RemoveAttr(RemoveAttr(e, first), second)))
            + "<?r end ?>"
  {
    var m1, m2 := Morph(first, BlockPattern(param)), Morph(second, p2);
    var e1 := RemoveAttr(e, first);
    var h0, h1 := ToHtml(e), ToHtml(e1);
    var w2 := Fill(p2, second, v2, ToHtml(RemoveAttr(e1, second)));
    var open := "<?r " + v1 + "." + first + " do |" + param + "| ?>";
    var w1 := open + h1 + "<?r end ?>";
    assert GetAttr(e1, second) == Some(v2) && e1.Elem? && e1.tag == e.tag by {
      RemoveAttrKeeps(e, first);
    }
    assert h1[..2] == ['<', e.tag[0]];
    assert MorphStep(h0, e, m1) == (w1, e1) by {
      FillBlock(param, first, v1, h1);
      ReplaceWhole(h0, w1);
    }
    assert MorphStep(w1, e1, m2).0 == open + w2 + "<?r end ?>" by {
      BlockOpenNotContains(v1, first, param, h1[..2]);
      RewrapInside(open, h1, w2);
    }
    TwoMorphs(h0, e, m1, m2);
  }

  /** Both attributes of a two-rule table occur in the element's markup, so
      the candidate filter keeps the table whole. */
  lemma BothCandidates(e: Node, m1: Morph, m2: Morph)
    requires GetAttr(e, m1.name).Some? && GetAttr(e, m2.name).Some?
    ensures Candidates([m1, m2], ToHtml(e)) == [m1, m2]
  {
    var table := [m1, m2];
    AttrInHtml(e, m1.name);
    AttrInHtml(e, m2.name);
    assert table[..1] == [m1] && table[..1][..0] == [];
    assert Candidates(table[..1], ToHtml(e)) == [m1];
  }

  /** `transform` on an element carrying two attributes of the table, a
      statement rule first. */
  lemma TransformNesting(e: Node, first: string, v1: string, second: string, v2: string, p2: string)
    requires e.Elem? && e.tag != [] && e.tag[0] != '?' && e.tag[0] != ' '
    requires first != second
    requires GetAttr(e, first) == Some(v1) && GetAttr(e, second) == Some(v2)
    requires !Contains(first, ExpressionTag) && !Contains(first, ContentTag)
    requires !Contains(v1, ContentTag)
    requires !Contains(first, ['<', e.tag[0]]) && !Contains(v1, ['<', e.tag[0]])
    ensures Transformed(false, [Morph(first, StatementPattern), Morph(second, p2)], ToHtml(e), true, [e])
         == "<?r " + first + " " + v1 + " ?>"
            + Fill(p2, second, v2, ToHtml(RemoveAttr(RemoveAttr(e, first), second)))
            + "<?r end ?>"
  {
    BothCandidates(e, Morph(first, StatementPattern), Morph(second, p2));
    NestingOrder(e, first, v1, second, v2, p2);
  }

  /** `transform` on an element carrying two attributes of the table, a
      block rule first. */
  lemma TransformBlockNesting(e: Node, param: string, first: string, v1: string,
                              second: string, v2: string, p2: string)
    requires e.Elem? && e.tag != []
    requires e.tag[0] != '?' && e.tag[0] != ' ' && e.tag[0] != '.' && e.tag[0] != '|'
    requires first != second
    requires GetAttr(e, first) == Some(v1) && GetAttr(e, second) == Some(v2)
    requires '%' !in param
    requires !Contains(first, ExpressionTag) && !Contains(first, ContentTag)
    requires !Contains(v1, ContentTag)
    requires !Contains(first, ['<', e.tag[0]]) && !Contains(v1, ['<', e.tag[0]])
    requires !Contains(param, ['<', e.tag[0]])
    ensures Transformed(false, [Morph(first, BlockPattern(param)), Morph(second, p2)], ToHtml(e), true, [e])
         == "<?r " + v1 + "." + first + " do |" + param + "| ?>"
            + Fill(p2, second, v2, ToHtml(RemoveAttr(RemoveAttr(e, first), second)))
            + "<?r end ?>"
  {
    BothCandidates(e, Morph(first, BlockPattern(param)), Morph(second, p2));
    NestingBlockOuter(e, param, first, v1, second, v2, p2);
  }
}
