# Ezamar Morpher, modelled in Dafny

Ramaze's Ezamar template engine runs a template through a *morpher* before
it compiles it. The morpher rewrites HTML elements that carry a control
attribute into Ezamar control-flow tags:

    <a if="@foo">x</a>             becomes   <?r if @foo ?><a>x</a><?r end ?>
    <div times="3">#{_t}</div>     becomes   <?r 3.times do |_t| ?><div>#{_t}</div><?r end ?>

The rewrite is driven by a configurable morph table. Each entry maps an
attribute name to a pattern with the placeholders `%morph`, `%expression` and
`%content`. `Morpher.transform(template)` works in four steps:

1. It picks the candidates: the entries whose `name=` occurs in the template.
2. With no candidates, it returns the template at once.
3. Otherwise it parses the template and walks the document's direct children.
   For each element child and each candidate attribute on it, it:
   - removes that attribute;
   - fills the pattern;
   - replaces every textual occurrence of the child's previous markup in the
     template.
4. If the parser library cannot be loaded, it swaps itself for a stub that
   returns every template unchanged.

The project is split into four modules plus a file of examples:

- `strings.dfy` (`Strings`): the string operations the morpher relies on.
  - `Contains` is Ruby's `String#include?`.
  - `ReplaceAll` is `gsub` with a literal, non-empty pattern. It scans left to
    right, and replacements never overlap.
- `markup.dfy` (`Markup`): the parsed document the morpher walks.
  - A node is either text or an element, and an element has an ordered
    attribute list.
  - `GetAttr` models `child[name]`, `RemoveAttr` models `remove_attribute`,
    and `ToHtml` models `to_html`.
- `ramaze.dfy` (`Ramaze`): the morph table, the shipped patterns, the
  candidate filter, the fill, the rewrite loop, and the table store with
  its lemmas.
  - The rewrite loop is a method with nested loops (`Rewrite`). It is proved
    against the step-by-step specification `RewriteDoc`.
  - The morpher itself is the class `Morpher`, with fields `morphs` (the
    table) and `stubbed` (the stub is installed). Its method `Transform`
    updates `stubbed` and returns the rewritten template. Its invariant
    `Valid` keeps the table's names distinct, as in a Ruby hash.
- `morpher_facts.dfy` (`MorpherFacts`): what the morpher promises, proved
  about the model. This covers:
  - the candidate filter, the fast skip, and the soundness of the pre-check;
  - the permanence of the stub;
  - the order of the placeholder fill, and the filled shipped patterns;
  - `%content` being the element without only the current attribute;
  - the global, string-based rewrite;
  - elements without candidates being left alone;
  - the first rule in the table becoming the outer wrapper, for a
    statement or a block rule over any second rule.
- `morpher_examples.dfy` (`MorpherExamples`): the documented examples,
  computed through the model.

Two things the original takes from outside are parameters of `Transform`:

- `doc` is the parser's result for the template.
- `parserLoads` says whether loading the parser library succeeds on this call.

The rewrite visits only the direct children of the document root
(`hp.each_child`, morpher.rb:122); it does not descend into them. An element
nested inside another is rewritten only as a side effect of the textual
replacement: when its markup is identical to the old markup of a direct child
being rewritten, `gsub!` replaces it too. `MorphChildUntouched` and
`RewriteDocUntouched` state that a direct child carrying no candidate
attribute leaves the template unchanged, whatever its nested elements carry.

## Model

| member | source | states |
|---|---|---|
| Strings.Contains | lib/ramaze/template/ezamar/morpher.rb:112 | `include?`: the empty key occurs in every template, and a key longer than the template never occurs in it |
| Strings.ContainsIff | lib/ramaze/template/ezamar/morpher.rb:112 | `include?` holds exactly when the key occurs at some position of the template |
| Strings.ReplaceAll | lib/ramaze/template/ezamar/morpher.rb:134 | `gsub` with a literal pattern; a definition with no contract of its own, whose behaviour the `ReplaceAll…` lemmas below state |
| Strings.ReplaceAllNoMatch | lib/ramaze/template/ezamar/morpher.rb:134 | `gsub!` leaves the template unchanged when the old markup does not occur in it |
| Strings.ReplaceAllFirst | lib/ramaze/template/ezamar/morpher.rb:130-134 | the first occurrence is replaced, and scanning resumes after it in the untouched rest |
| Strings.ReplaceAllTwice | lib/ramaze/template/ezamar/morpher.rb:134 | the replacement is global: two separate occurrences are both replaced |
| Strings.ReplaceAllGrows | lib/ramaze/template/ezamar/morpher.rb:134 | with a strictly longer replacement, the result is never shorter than the text and is longer as soon as the pattern occurs |
| Strings.ReplaceAllShrinks | lib/ramaze/template/ezamar/morpher.rb:134 | with a strictly shorter replacement, the result is never longer than the text and is shorter as soon as the pattern occurs |
| Strings.ReplaceAllSelf | lib/ramaze/template/ezamar/morpher.rb:134 | replacing a pattern by itself is the identity |
| Strings.ReplaceAllUnchangedIff | lib/ramaze/template/ezamar/morpher.rb:134 | the text is unchanged exactly when the pattern is absent or the replacement equals it |
| Markup.GetAttr | lib/ramaze/template/ezamar/morpher.rb:125 | `child[name]`: a definition with no contract of its own; `WithoutLookup`, `RemoveAttrKeeps` and `AttrInHtml` state what it reads |
| Markup.RemoveAttr | lib/ramaze/template/ezamar/morpher.rb:127 | `remove_attribute`: a definition with no contract of its own; `WithoutLookup` and `RemoveAttrKeeps` state its effect |
| Markup.ToHtml | lib/ramaze/template/ezamar/morpher.rb:126 | an element's markup opens with `<` and the first letter of its tag, and holds at least a start and an end tag |
| Markup.WithoutLookup | lib/ramaze/template/ezamar/morpher.rb:127 | after `remove_attribute` no attribute of that name is left, every other name reads the same, and the list is unchanged when the name was absent |
| Markup.RemoveAttrKeeps | lib/ramaze/template/ezamar/morpher.rb:125-127 | removing one attribute keeps tag, children and other attributes, and changes the markup exactly when the attribute was present |
| Markup.AttrInHtml | lib/ramaze/template/ezamar/morpher.rb:112 | an element carrying attribute `name` has `name=` in its markup |
| Ramaze.Candidates | lib/ramaze/template/ezamar/morpher.rb:110-115 | the candidate filter: a definition with no contract of its own; `CandidatesExactly` and `CandidatesAppend` state it |
| Ramaze.Fill | lib/ramaze/template/ezamar/morpher.rb:129-132 | the placeholder fill: a definition with no contract of its own; `FillOrder`, `FillStatement` and `FillBlock` state it |
| Ramaze.MorphStep | lib/ramaze/template/ezamar/morpher.rb:125-134 | one rewrite step: a definition with no contract of its own; `MorphStepStrips`, `MorphStepAbsent` and `MorphStepDuplicates` state it |
| Ramaze.Store | lib/ramaze/template/ezamar/morpher.rb:28-32 | the table store: a definition with no contract of its own; `StoreEffect` states it |
| Ramaze.Rewrite | lib/ramaze/template/ezamar/morpher.rb:121-138 | the nested loop over direct children and candidate morphs computes `RewriteDoc`, the step-by-step rewrite |
| Ramaze.MorphChildIgnoresText | lib/ramaze/template/ezamar/morpher.rb:123 | a non-element child leaves template and child unchanged |
| Ramaze.Morpher.constructor | lib/ramaze/template/ezamar/morpher.rb:43-49 | a fresh morpher has the shipped five-rule table, whose names are distinct, and no stub |
| Ramaze.StoreEffect | lib/ramaze/template/ezamar/morpher.rb:28-32 | after a store, `name` reads back the new pattern, other names read the same, and names keep their order, with a new name appended |
| Ramaze.StoreKeepsDistinct | lib/ramaze/template/ezamar/morpher.rb:28-32 | a store into a table with distinct names leaves the names distinct |
| Ramaze.Morpher.SetMorphs | lib/ramaze/template/ezamar/morpher.rb:19-23 | replacing the whole table by one with distinct names, as a Ruby hash has; an empty table turns morphing off (see `FastSkip`) |
| Ramaze.Morpher.SetMorph | lib/ramaze/template/ezamar/morpher.rb:28-32 | `trait[:morphs][name] = pattern` stores into the table as a dictionary (see `StoreEffect`) and keeps its names distinct |
| Ramaze.Morpher.Transform | lib/ramaze/template/ezamar/morpher.rb:109-154 | once stubbed, the input comes back and the stub stays; otherwise the result is `Transformed` and the stub is set exactly when there are candidates and the parser fails to load |
| MorpherFacts.CandidatesExactly | lib/ramaze/template/ezamar/morpher.rb:110-115 | an entry is a candidate if and only if it is in the table and its `name=` occurs in the template |
| MorpherFacts.CandidatesAppend | lib/ramaze/template/ezamar/morpher.rb:110-115 | the filter keeps table order |
| MorpherFacts.FastSkip | lib/ramaze/template/ezamar/morpher.rb:117 | with no `name=` in the template (in particular with an empty table) the result is the template and the stub state is unchanged |
| MorpherFacts.StubIsPermanent | lib/ramaze/template/ezamar/morpher.rb:142-153 | after the stub is installed, every call returns its input and the stub stays |
| MorpherFacts.StubbedAfterIff | lib/ramaze/template/ezamar/morpher.rb:117-153 | the stub is installed exactly when it already was, or when some entry's `name=` occurs and the parser cannot be loaded |
| MorpherFacts.FillWithoutPlaceholders | lib/ramaze/template/ezamar/morpher.rb:129-132 | a pattern without placeholders is used verbatim |
| MorpherFacts.FillOrder | lib/ramaze/template/ezamar/morpher.rb:129-132 | `%morph` is filled before `%expression`, which is filled before `%content`: a pattern `%morph` whose name is `%expression` gives the expression, and a pattern `%expression` whose expression is `%content` gives the content |
| MorpherFacts.FillStatement | lib/ramaze/template/ezamar/morpher.rb:44-46 | the `if`/`unless`/`for` pattern fills to `<?r name expr ?>content<?r end ?>` whenever the name holds neither `%expression` nor `%content` and the expression holds no `%content` |
| MorpherFacts.FillBlock | lib/ramaze/template/ezamar/morpher.rb:47-48 | the `each`/`times` pattern fills to a `<?r expr.name do ... ?>` opener yielding the block parameter, then the content, then `<?r end ?>`, under the same conditions and a block parameter without `%` |
| MorpherFacts.MorphChildUntouched | lib/ramaze/template/ezamar/morpher.rb:122-125 | a child without any candidate attribute leaves template and child unchanged, including elements whose attributes sit only on nested elements |
| MorpherFacts.RewriteDocUntouched | lib/ramaze/template/ezamar/morpher.rb:122-125 | a document whose direct children carry no candidate attribute leaves the template unchanged |
| MorpherFacts.MorphChildKeepsAbsent | lib/ramaze/template/ezamar/morpher.rb:124-127 | an attribute a child lacks stays absent through the inner loop, which only removes attributes |
| MorpherFacts.MorphChildCandidates | lib/ramaze/template/ezamar/morpher.rb:110-134 | dropping morphs whose `name=` is absent from the template changes nothing for a child carrying none of their attributes |
| MorpherFacts.RewriteDocCandidates | lib/ramaze/template/ezamar/morpher.rb:110-138 | the same over all direct children |
| MorpherFacts.PreCheckSound | lib/ramaze/template/ezamar/morpher.rb:110-117 | when every direct child's markup occurs in the template, `transform` equals the rewrite with the whole table, so the pre-check drops no rule the rewrite would apply |
| MorpherFacts.MorphStepStrips | lib/ramaze/template/ezamar/morpher.rb:125-134 | the child loses only the current attribute, `%content` is its stripped markup, and every occurrence of its old markup is replaced |
| MorpherFacts.MorphStepAbsent | lib/ramaze/template/ezamar/morpher.rb:126-134 | if the child's markup does not occur in the template, the template is unchanged |
| MorpherFacts.MorphStepDuplicates | lib/ramaze/template/ezamar/morpher.rb:126-134 | two copies of a morphed element's markup are both rewritten, identically |
| MorpherFacts.ReplaceWhole | lib/ramaze/template/ezamar/morpher.rb:134 | markup that is the whole template is replaced by the rewrite |
| MorpherFacts.SingleMorph | lib/ramaze/template/ezamar/morpher.rb:122-134 | a template that is one element carrying the attribute becomes the filled pattern around the stripped element |
| MorpherFacts.TransformStatement | lib/ramaze/template/ezamar/morpher.rb:109-140 | `transform` with a statement rule on such a template yields `<?r name expr ?>` + stripped element + `<?r end ?>`, under the conditions of `FillStatement` |
| MorpherFacts.TransformBlock | lib/ramaze/template/ezamar/morpher.rb:109-140 | the same for a block rule: the block opener yielding the parameter, then the stripped element, then `<?r end ?>`, under the conditions of `FillBlock` |
| MorpherFacts.RewrapInside | lib/ramaze/template/ezamar/morpher.rb:134 | rewriting the element inside a wrapper `open + element + <?r end ?>` keeps the wrapper around the new content, when the opener holds no `<` followed by the element's first tag letter and does not end in `<` |
| MorpherFacts.TwoMorphs | lib/ramaze/template/ezamar/morpher.rb:122-136 | on a one-element document, the second morph of a two-rule table runs on the template and the element the first one left |
| MorpherFacts.NestingOrder | lib/ramaze/template/ezamar/morpher.rb:124-134 | with a statement rule first and any rule second, the statement becomes the outer wrapper around the second rule's filled pattern, whose content is the element without both attributes, on a template that is the element alone, with a two-rule table |
| MorpherFacts.StatementOverBlock | lib/ramaze/template/ezamar/morpher.rb:44-48 | a statement rule over a block rule (`<li if="@show" each="@items">`) gives the statement around the block around the doubly stripped element, on a template that is the element alone, with a two-rule table |
| MorpherFacts.NestingBlockOuter | lib/ramaze/template/ezamar/morpher.rb:124-134 | with a block rule first and any rule second, the block becomes the outer wrapper around the second rule's filled pattern, on a template that is the element alone, with a two-rule table |
| MorpherFacts.BothCandidates | lib/ramaze/template/ezamar/morpher.rb:110-115 | an element carrying both attributes of a two-rule table keeps the whole table as candidates |
| MorpherFacts.TransformNesting | lib/ramaze/template/ezamar/morpher.rb:109-140 | `NestingOrder` through `transform`, candidate filter included, on a template that is the element alone, with a two-rule table |
| MorpherFacts.TransformBlockNesting | lib/ramaze/template/ezamar/morpher.rb:109-140 | `NestingBlockOuter` through `transform`, candidate filter included, on a template that is the element alone, with a two-rule table |
| MorpherExamples.IfExample | lib/ramaze/template/ezamar/morpher.rb:32-38 | `<a if="@foo">x</a>` becomes `<?r if @foo ?><a>x</a><?r end ?>` |
| MorpherExamples.TimesExample | lib/ramaze/template/ezamar/morpher.rb:76-81 | `<div times="3">#{_t}</div>` becomes the `3.times` block yielding `_t` around `<div>#{_t}</div>` |
| MorpherExamples.DefaultCandidates | lib/ramaze/template/ezamar/morpher.rb:110-115 | with the shipped table, only `if` is a candidate for `<a if="@foo">x</a>` |
| MorpherExamples.DefaultIfExample | lib/ramaze/template/ezamar/morpher.rb:109-140 | the `if` example gives the same result through the shipped five-rule table |
| MorpherExamples.NoMorphExample | lib/ramaze/template/ezamar/morpher.rb:117 | `<p class="x">y</p>` comes back unchanged under the shipped table whatever the parser does, and no stub is installed |

## Left out

- The HTML parser library's parsing and serialisation are not modelled.
  - The parse is the parameter `doc`.
  - `ToHtml` is a simplified serialiser: it always writes an end tag, quotes
    every attribute value with `"`, and neither escapes nor self-closes.
  - A template whose parse does not re-serialise to text that occurs in the
    template behaves as the original does: the `gsub!` finds nothing.
- Loading the parser library (`require`, and the `LoadError` it raises) is the
  parameter `parserLoads`.
- The logged error message is not modelled.
- Redefining `transform` by `class_eval` is modelled by the `stubbed` field.
- `gsub` with a string replacement expands back-references such as `\0` and
  `\1` in the replacement. `ReplaceAll` inserts the replacement literally.
  Expressions or markup containing a backslash are therefore not modelled.
- `ReplaceAll` requires a non-empty pattern. Every use in the morpher passes
  one: the placeholders and an element's markup are never empty.
- Ruby's `gsub!` updates the caller's string in place. The model returns the
  new template instead, and aliasing of the argument is not captured.
- The unused `bound` parameter is dropped.
- The morph table is a sequence in iteration order.
  - Ruby 1.9 and later iterate a hash in insertion order; Ruby 1.8 leaves the
    order unspecified.
  - `to_s` on symbol keys and values is not modelled, so names are strings
    from the start, and `Hash[...]` cannot merge two keys that only become
    equal after `to_s`.
- The documentation's `times` example (morpher.rb:77) closes the element with
  `<div>`. The model's example uses the evidently intended `</div>`.
- `PreCheckSound` holds only when every direct child's markup occurs in the
  template. morpher.rb:15-17 warns that the pre-check may fail otherwise, and
  the model does not state what happens then.
- The fill lemmas state the filled shape only where no chained `gsub`
  substitutes into an earlier insertion. `FillOrder` states what happens when
  one does.
- FillStatement: requires that the name holds neither `%expression` nor
  `%content` and the expression holds no `%content`. Otherwise a later
  `gsub` rewrites the inserted text, and the lemma does not give the result.
- FillBlock: requires the same, and a block parameter without `%`.
- TransformStatement: inherits the conditions of `FillStatement`.
- TransformBlock: inherits the conditions of `FillBlock`.
- NestingOrder: requires that the outer name and value hold no `<` followed
  by the element's first tag letter, and that the tag starts with neither `?`
  nor a space. Otherwise the second `gsub!` could match inside the outer
  wrapper. The second rule's pattern is arbitrary.
- NestingBlockOuter: requires the same of the outer name, value and block
  parameter, and also that the tag starts with neither `.` nor `|`.
- TransformNesting: inherits the conditions of `NestingOrder`.
- TransformBlockNesting: inherits the conditions of `NestingBlockOuter`.
- StatementOverBlock: inherits the conditions of `NestingOrder` for the
  outer rule and of `FillBlock` for the inner one.
- Nesting of three or more candidate attributes on one element is not stated.
- SetMorphs: requires distinct names. A Ruby hash cannot hold a name twice,
  so tables with a repeated name are outside the model.
- The template engine around the morpher is not part of this model: the
  pipeline that calls `transform`, the compiler that consumes `<?r ?>` tags,
  and the `trait` mechanism itself.
