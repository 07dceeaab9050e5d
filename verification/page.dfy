/**
  The search page of `app/page.jsx`: the palette totals shown above the list, and
  the filter that narrows the palette to what matches a query.
*/
module Page {
  import opened Wrappers
  import opened Strings
  import opened Palette

  // ---------------------------------------------------------------------------
  // Totals
  // ---------------------------------------------------------------------------

  /**
    `totals`: one pass over the palette counting categories, topics and examples
    into an accumulator.
  */
  method Totals(palette: seq<Category>) returns (c: Counts)
    ensures c == Size(palette)
  {
    c := Counts(0, 0, 0);
    for i := 0 to |palette|
      invariant c == Size(palette[..i])
    {
      var category := palette[i];
      assert palette[..i + 1][..i] == palette[..i];
      var topics := c.topics;
      var examples := c.examples;
      for j := 0 to |category.topics|
        invariant topics == TopicCount(palette[..i]) + j
        invariant examples == ExampleCount(palette[..i]) + ExampleSum(category.topics[..j])
      {
        assert category.topics[..j + 1][..j] == category.topics[..j];
        topics := topics + 1;
        examples := examples + |category.topics[j].examples|;
      }
      assert category.topics[..|category.topics|] == category.topics;
      c := Counts(c.categories + 1, topics, examples);
    }
    assert palette[..|palette|] == palette;
  }

  // ---------------------------------------------------------------------------
  // What the filter keeps
  // ---------------------------------------------------------------------------

  /** `x.toLowerCase().includes(q)`, with the case mapping given as `lower`. */
  predicate Hits(x: string, q: string, lower: string -> string) {
    Includes(lower(x), q)
  }

  /** A topic's own label matches: its title or its raw numbered title. */
  predicate TopicMatches(t: Topic, q: string, lower: string -> string) {
    Hits(t.title, q, lower) || Hits(t.rawTitle, q, lower)
  }

  /** Some example of the topic matches. */
  predicate SomeExampleHits(t: Topic, q: string, lower: string -> string) {
    exists e :: e in t.examples && Hits(e, q, lower)
  }

  /**
    `a` is `b` with some elements left out and each kept element replaced by one it
    is related to by `keep`, order preserved.
  */
  predicate EmbedsBy<T>(a: seq<T>, b: seq<T>, keep: (T, T) -> bool)
    decreases |b|
  {
    if a == [] then true
    else if b == [] then false
    else
      || (keep(a[|a| - 1], b[|b| - 1]) && EmbedsBy(a[..|a| - 1], b[..|b| - 1], keep))
      || EmbedsBy(a, b[..|b| - 1], keep)
  }

  predicate SameString(x: string, y: string) {
    x == y
  }

  /** `t'` is `t` with possibly fewer examples, in their original order. */
  predicate TopicShrinks(t': Topic, t: Topic) {
    && t'.id == t.id && t'.title == t.title && t'.rawTitle == t.rawTitle
    && EmbedsBy(t'.examples, t.examples, SameString)
  }

  /** `c'` is `c` with possibly fewer topics, each possibly with fewer examples. */
  predicate CategoryShrinks(c': Category, c: Category) {
    c'.category == c.category && EmbedsBy(c'.topics, c.topics, TopicShrinks)
  }

  /** `topic.examples.filter(example => example.toLowerCase().includes(q))`. */
  function MatchingExamples(es: seq<string>, q: string, lower: string -> string): (r: seq<string>)
    ensures |r| <= |es|
  {
    if es == [] then []
    else
      var r := MatchingExamples(es[..|es| - 1], q, lower);
      var e := es[|es| - 1];
      if Hits(e, q, lower) then r + [e] else r
  }

  /**
    One topic under the query: kept whole when its category or its own label matches,
    kept with only its matching examples when some example matches, dropped otherwise.
  */
  function FilterTopic(t: Topic, q: string, lower: string -> string, categoryMatches: bool): (r: Option<Topic>)
    ensures r.Some? ==> r.value.id == t.id && r.value.title == t.title && r.value.rawTitle == t.rawTitle
  {
    if categoryMatches || TopicMatches(t, q, lower) then Some(t)
    else
      var examples := MatchingExamples(t.examples, q, lower);
      if |examples| > 0 then Some(t.(examples := examples)) else None
  }

  /** The topics of one category under the query, in their original order. */
  function FilterTopics(ts: seq<Topic>, q: string, lower: string -> string, categoryMatches: bool): (r: seq<Topic>)
    ensures |r| <= |ts|
  {
    if ts == [] then []
    else
      var r := FilterTopics(ts[..|ts| - 1], q, lower, categoryMatches);
      match FilterTopic(ts[|ts| - 1], q, lower, categoryMatches)
      case Some(t') => r + [t']
      case None => r
  }

  /**
    One category under the query: kept whole when its name matches, kept with its
    surviving topics when some topic survives, dropped otherwise.
  */
  function FilterCategory(c: Category, q: string, lower: string -> string): (r: Option<Category>)
    ensures r.Some? ==> r.value.category == c.category
  {
    var categoryMatches := Hits(c.category, q, lower);
    var topics := FilterTopics(c.topics, q, lower, categoryMatches);
    if categoryMatches then Some(c)
    else if |topics| > 0 then Some(c.(topics := topics))
    else None
  }

  /** `palette.map(...).filter(Boolean)` for a non-empty query. */
  function Filtered(p: seq<Category>, q: string, lower: string -> string): (r: seq<Category>)
    ensures |r| <= |p|
  {
    if p == [] then []
    else
      var r := Filtered(p[..|p| - 1], q, lower);
      match FilterCategory(p[|p| - 1], q, lower)
      case Some(c) => r + [c]
      case None => r
  }

  /** Under a matching category every topic is kept, whole and in order. */
  lemma {:induction false} FilterTopicsKeepsAll(ts: seq<Topic>, q: string, lower: string -> string)
    ensures FilterTopics(ts, q, lower, true) == ts
  {
    if ts != [] {
      FilterTopicsKeepsAll(ts[..|ts| - 1], q, lower);
      assert ts == ts[..|ts| - 1] + [ts[|ts| - 1]];
    }
  }

  lemma FilterTopicsStep(ts: seq<Topic>, j: nat, q: string, lower: string -> string, categoryMatches: bool)
    requires j < |ts|
    ensures FilterTopics(ts[..j + 1], q, lower, categoryMatches) ==
      match FilterTopic(ts[j], q, lower, categoryMatches)
      case Some(t') => FilterTopics(ts[..j], q, lower, categoryMatches) + [t']
      case None => FilterTopics(ts[..j], q, lower, categoryMatches)
  {
    assert ts[..j + 1][..j] == ts[..j];
  }

  lemma FilteredStep(p: seq<Category>, i: nat, q: string, lower: string -> string)
    requires i < |p|
    ensures Filtered(p[..i + 1], q, lower) ==
      match FilterCategory(p[i], q, lower)
      case Some(c) => Filtered(p[..i], q, lower) + [c]
      case None => Filtered(p[..i], q, lower)
  {
    assert p[..i + 1][..i] == p[..i];
  }

  lemma ExampleSumSnoc(ts: seq<Topic>, t: Topic)
    ensures ExampleSum(ts + [t]) == ExampleSum(ts) + |t.examples|
  {
    assert (ts + [t])[..|ts|] == ts;
  }

  lemma CountsSnoc(p: seq<Category>, c: Category)
    ensures TopicCount(p + [c]) == TopicCount(p) + |c.topics|
    ensures ExampleCount(p + [c]) == ExampleCount(p) + ExampleSum(c.topics)
  {
    assert (p + [c])[..|p|] == p;
  }

  // ---------------------------------------------------------------------------
  // What the filter promises
  // ---------------------------------------------------------------------------

  lemma EmbedsKeep<T>(a: seq<T>, b: seq<T>, x: T, y: T, keep: (T, T) -> bool)
    requires EmbedsBy(a, b, keep) && keep(x, y)
    ensures EmbedsBy(a + [x], b + [y], keep)
  {
    assert (a + [x])[..|a|] == a;
    assert (b + [y])[..|b|] == b;
  }

  lemma EmbedsSkip<T>(a: seq<T>, b: seq<T>, y: T, keep: (T, T) -> bool)
    requires EmbedsBy(a, b, keep)
    ensures EmbedsBy(a, b + [y], keep)
  {
    assert (b + [y])[..|b|] == b;
  }

  /** Every sequence embeds in itself under a reflexive relation. */
  lemma {:induction false} EmbedsSelf<T>(a: seq<T>, keep: (T, T) -> bool)
    requires forall x :: keep(x, x)
    ensures EmbedsBy(a, a, keep)
  {
    if a != [] {
      var n := |a| - 1;
      EmbedsSelf(a[..n], keep);
      EmbedsKeep(a[..n], a[..n], a[n], a[n], keep);
      assert a[..n] + [a[n]] == a;
    }
  }

  lemma {:induction false} MatchingExamplesCounts(es: seq<string>, q: string, lower: string -> string)
    ensures var r := MatchingExamples(es, q, lower);
      forall e :: multiset(r)[e] == if Hits(e, q, lower) then multiset(es)[e] else 0
  {
    if es != [] {
      var n := |es| - 1;
      var init, x := es[..n], es[n];
      var r0 := MatchingExamples(init, q, lower);
      MatchingExamplesCounts(init, q, lower);
      assert es == init + [x];
      assert multiset(es) == multiset(init) + multiset{x};
      var r := MatchingExamples(es, q, lower);
      if Hits(x, q, lower) {
        assert multiset(r) == multiset(r0) + multiset{x};
      } else {
        assert r == r0;
      }
    }
  }

  lemma {:induction false} MatchingExamplesInOrder(es: seq<string>, q: string, lower: string -> string)
    ensures EmbedsBy(MatchingExamples(es, q, lower), es, SameString)
  {
    if es != [] {
      var n := |es| - 1;
      var init := es[..n];
      MatchingExamplesInOrder(init, q, lower);
      assert es == init + [es[n]];
      var r := MatchingExamples(init, q, lower);
      if Hits(es[n], q, lower) {
        EmbedsKeep(r, init, es[n], es[n], SameString);
      } else {
        EmbedsSkip(r, init, es[n], SameString);
      }
    }
  }

  /**
    The examples filter keeps exactly the matching examples: each as often as the
    topic has it, in the topic's order.
  */
  lemma MatchingExamplesExact(es: seq<string>, q: string, lower: string -> string)
    ensures var r := MatchingExamples(es, q, lower);
      && (forall e :: e in r <==> e in es && Hits(e, q, lower))
      && (forall e :: multiset(r)[e] == if Hits(e, q, lower) then multiset(es)[e] else 0)
      && EmbedsBy(r, es, SameString)
  {
    var r := MatchingExamples(es, q, lower);
    MatchingExamplesCounts(es, q, lower);
    MatchingExamplesInOrder(es, q, lower);
    forall e ensures e in r <==> e in es && Hits(e, q, lower) {
      assert e in r <==> e in multiset(r);
      assert e in es <==> e in multiset(es);
    }
  }

  /** Filtering the examples a second time changes nothing. */
  lemma {:induction false} MatchingExamplesIdempotent(es: seq<string>, q: string, lower: string -> string)
    ensures MatchingExamples(MatchingExamples(es, q, lower), q, lower) == MatchingExamples(es, q, lower)
  {
    if es != [] {
      var init := es[..|es| - 1];
      var r := MatchingExamples(init, q, lower);
      MatchingExamplesIdempotent(init, q, lower);
      if Hits(es[|es| - 1], q, lower) {
        assert (r + [es[|es| - 1]])[..|r|] == r;
      }
    }
  }

  /** A topic survives exactly when its category, its label or one of its examples matches. */
  lemma FilterTopicSurvives(t: Topic, q: string, lower: string -> string, categoryMatches: bool)
    ensures FilterTopic(t, q, lower, categoryMatches).Some? <==>
      categoryMatches || TopicMatches(t, q, lower) || SomeExampleHits(t, q, lower)
  {
    var es := MatchingExamples(t.examples, q, lower);
    MatchingExamplesExact(t.examples, q, lower);
    if es != [] {
      assert es[0] in es;
    }
  }

  /** A surviving topic is a shrunk copy of the original. */
  lemma FilterTopicShrinks(t: Topic, q: string, lower: string -> string, categoryMatches: bool)
    ensures var r := FilterTopic(t, q, lower, categoryMatches);
      r.Some? ==> TopicShrinks(r.value, t)
  {
    MatchingExamplesInOrder(t.examples, q, lower);
    EmbedsSelf(t.examples, SameString);
  }

  /**
    A topic survives exactly when its category or its own label matches or one of its
    examples does. It then keeps its id and labels; it is kept whole when its category
    or label matches, and otherwise keeps exactly its matching examples, in order.
  */
  lemma FilterTopicRule(t: Topic, q: string, lower: string -> string, categoryMatches: bool)
    ensures var r := FilterTopic(t, q, lower, categoryMatches);
      r.Some? <==> categoryMatches || TopicMatches(t, q, lower) || SomeExampleHits(t, q, lower)
    ensures categoryMatches || TopicMatches(t, q, lower) ==>
      FilterTopic(t, q, lower, categoryMatches) == Some(t)
    ensures var r := FilterTopic(t, q, lower, categoryMatches);
      r.Some? && !(categoryMatches || TopicMatches(t, q, lower)) ==>
        && r.value.examples != []
        && forall e :: e in r.value.examples <==> e in t.examples && Hits(e, q, lower)
    ensures var r := FilterTopic(t, q, lower, categoryMatches);
      r.Some? ==> TopicShrinks(r.value, t)
  {
    var es := MatchingExamples(t.examples, q, lower);
    MatchingExamplesExact(t.examples, q, lower);
    FilterTopicShrinks(t, q, lower, categoryMatches);
    if es != [] {
      assert es[0] in es;
    }
  }

  /** A surviving topic filtered again under the same query is unchanged. */
  lemma FilterTopicIdempotent(t: Topic, q: string, lower: string -> string, categoryMatches: bool)
    requires FilterTopic(t, q, lower, categoryMatches).Some?
    ensures var t' := FilterTopic(t, q, lower, categoryMatches).value;
      FilterTopic(t', q, lower, categoryMatches) == Some(t')
  {
    MatchingExamplesIdempotent(t.examples, q, lower);
  }

  /** The surviving topics keep their order, each a shrunk copy of its original. */
  lemma {:induction false} FilterTopicsInOrder(ts: seq<Topic>, q: string, lower: string -> string, categoryMatches: bool)
    ensures EmbedsBy(FilterTopics(ts, q, lower, categoryMatches), ts, TopicShrinks)
  {
    if ts != [] {
      var n := |ts| - 1;
      var init := ts[..n];
      FilterTopicsInOrder(init, q, lower, categoryMatches);
      assert ts == init + [ts[n]];
      var r := FilterTopics(init, q, lower, categoryMatches);
      match FilterTopic(ts[n], q, lower, categoryMatches)
      case Some(t') =>
        FilterTopicShrinks(ts[n], q, lower, categoryMatches);
        EmbedsKeep(r, init, t', ts[n], TopicShrinks);
      case None =>
        EmbedsSkip(r, init, ts[n], TopicShrinks);
    }
  }

  /** Every surviving topic is what the topic rule makes of some topic of the list. */
  lemma {:induction false} FilterTopicsFrom(ts: seq<Topic>, q: string, lower: string -> string, categoryMatches: bool)
    ensures forall t' :: t' in FilterTopics(ts, q, lower, categoryMatches) ==>
      exists k :: 0 <= k < |ts| && FilterTopic(ts[k], q, lower, categoryMatches) == Some(t')
  {
    if ts != [] {
      var n := |ts| - 1;
      var init := ts[..n];
      FilterTopicsFrom(init, q, lower, categoryMatches);
      forall t' | t' in FilterTopics(init, q, lower, categoryMatches)
        ensures exists k :: 0 <= k < |ts| && FilterTopic(ts[k], q, lower, categoryMatches) == Some(t')
      {
        var k :| 0 <= k < |init| && FilterTopic(init[k], q, lower, categoryMatches) == Some(t');
        assert init[k] == ts[k];
      }
    }
  }

  /** Every topic the topic rule keeps is among the surviving topics. */
  lemma {:induction false} FilterTopicsKeeps(ts: seq<Topic>, q: string, lower: string -> string, categoryMatches: bool)
    ensures forall k :: 0 <= k < |ts| && FilterTopic(ts[k], q, lower, categoryMatches).Some? ==>
      FilterTopic(ts[k], q, lower, categoryMatches).value in FilterTopics(ts, q, lower, categoryMatches)
  {
    if ts != [] {
      var n := |ts| - 1;
      var init := ts[..n];
      FilterTopicsKeeps(init, q, lower, categoryMatches);
      forall k | 0 <= k < n && FilterTopic(ts[k], q, lower, categoryMatches).Some?
        ensures FilterTopic(ts[k], q, lower, categoryMatches).value in FilterTopics(ts, q, lower, categoryMatches)
      {
        assert init[k] == ts[k];
      }
    }
  }

  /** Filtering the topics a second time under the same query changes nothing. */
  lemma {:induction false} FilterTopicsIdempotent(ts: seq<Topic>, q: string, lower: string -> string, categoryMatches: bool)
    ensures var r := FilterTopics(ts, q, lower, categoryMatches);
      FilterTopics(r, q, lower, categoryMatches) == r
  {
    if ts != [] {
      var n := |ts| - 1;
      var r := FilterTopics(ts[..n], q, lower, categoryMatches);
      FilterTopicsIdempotent(ts[..n], q, lower, categoryMatches);
      match FilterTopic(ts[n], q, lower, categoryMatches)
      case Some(t') =>
        FilterTopicIdempotent(ts[n], q, lower, categoryMatches);
        assert (r + [t'])[..|r|] == r;
      case None =>
    }
  }

  /** Every topic is a shrunk copy of itself. */
  lemma TopicShrinksSelf()
    ensures forall t :: TopicShrinks(t, t)
  {
    forall t ensures TopicShrinks(t, t) {
      EmbedsSelf(t.examples, SameString);
    }
  }

  /** A surviving category is a shrunk copy of the original. */
  lemma FilterCategoryShrinks(c: Category, q: string, lower: string -> string)
    ensures var r := FilterCategory(c, q, lower);
      r.Some? ==> CategoryShrinks(r.value, c)
  {
    if Hits(c.category, q, lower) {
      TopicShrinksSelf();
      EmbedsSelf(c.topics, TopicShrinks);
    } else {
      FilterTopicsInOrder(c.topics, q, lower, false);
    }
  }

  /**
    A category survives exactly when its name matches or one of its topics matches by
    label or by an example; it is kept whole when its name matches, and always keeps
    its name and a shrunk copy of its topics in their order.
  */
  lemma FilterCategoryRule(c: Category, q: string, lower: string -> string)
    ensures var r := FilterCategory(c, q, lower);
      r.Some? <==> (Hits(c.category, q, lower)
        || exists t :: t in c.topics && (TopicMatches(t, q, lower) || SomeExampleHits(t, q, lower)))
    ensures Hits(c.category, q, lower) ==> FilterCategory(c, q, lower) == Some(c)
    ensures var r := FilterCategory(c, q, lower);
      r.Some? ==> CategoryShrinks(r.value, c)
  {
    FilterCategoryShrinks(c, q, lower);
    FilterCategorySurvives(c, q, lower);
  }

  lemma FilterCategorySurvives(c: Category, q: string, lower: string -> string)
    ensures FilterCategory(c, q, lower).Some? <==> (Hits(c.category, q, lower)
      || exists t :: t in c.topics && (TopicMatches(t, q, lower) || SomeExampleHits(t, q, lower)))
  {
    if !Hits(c.category, q, lower) {
      var ts := FilterTopics(c.topics, q, lower, false);
      if ts != [] {
        FilterTopicsFrom(c.topics, q, lower, false);
        var k :| 0 <= k < |c.topics| && FilterTopic(c.topics[k], q, lower, false) == Some(ts[0]);
        FilterTopicSurvives(c.topics[k], q, lower, false);
        assert c.topics[k] in c.topics;
      } else {
        FilterTopicsKeeps(c.topics, q, lower, false);
        forall t | t in c.topics ensures !(TopicMatches(t, q, lower) || SomeExampleHits(t, q, lower)) {
          var k :| 0 <= k < |c.topics| && c.topics[k] == t;
          FilterTopicSurvives(t, q, lower, false);
        }
      }
    }
  }

  /** The surviving categories keep their order, each a shrunk copy of its original. */
  lemma {:induction false} FilteredInOrder(p: seq<Category>, q: string, lower: string -> string)
    ensures EmbedsBy(Filtered(p, q, lower), p, CategoryShrinks)
  {
    if p != [] {
      var n := |p| - 1;
      var init := p[..n];
      FilteredInOrder(init, q, lower);
      assert p == init + [p[n]];
      var r := Filtered(init, q, lower);
      match FilterCategory(p[n], q, lower)
      case Some(c') =>
        FilterCategoryShrinks(p[n], q, lower);
        EmbedsKeep(r, init, c', p[n], CategoryShrinks);
      case None =>
        EmbedsSkip(r, init, p[n], CategoryShrinks);
    }
  }

  /** Every surviving category is what the category rule makes of some category. */
  lemma {:induction false} FilteredFrom(p: seq<Category>, q: string, lower: string -> string)
    ensures forall c' :: c' in Filtered(p, q, lower) ==>
      exists k :: 0 <= k < |p| && FilterCategory(p[k], q, lower) == Some(c')
  {
    if p != [] {
      var n := |p| - 1;
      var init := p[..n];
      FilteredFrom(init, q, lower);
      forall c' | c' in Filtered(init, q, lower)
        ensures exists k :: 0 <= k < |p| && FilterCategory(p[k], q, lower) == Some(c')
      {
        var k :| 0 <= k < |init| && FilterCategory(init[k], q, lower) == Some(c');
        assert init[k] == p[k];
      }
    }
  }

  /** Every category the category rule keeps is among the surviving categories. */
  lemma {:induction false} FilteredKeeps(p: seq<Category>, q: string, lower: string -> string)
    ensures forall k :: 0 <= k < |p| && FilterCategory(p[k], q, lower).Some? ==>
      FilterCategory(p[k], q, lower).value in Filtered(p, q, lower)
  {
    if p != [] {
      var n := |p| - 1;
      var init := p[..n];
      FilteredKeeps(init, q, lower);
      forall k | 0 <= k < n && FilterCategory(p[k], q, lower).Some?
        ensures FilterCategory(p[k], q, lower).value in Filtered(p, q, lower)
      {
        assert init[k] == p[k];
      }
    }
  }

  /**
    Soundness of what is shown: every topic shown has a matching category name, a
    matching label or a matching example, and every example shown is under a matching
    category name or topic label, or matches itself.
  */
  lemma ShownMatches(p: seq<Category>, q: string, lower: string -> string)
    ensures forall c', t' :: c' in Filtered(p, q, lower) && t' in c'.topics ==>
      Hits(c'.category, q, lower) || TopicMatches(t', q, lower) || SomeExampleHits(t', q, lower)
    ensures forall c', t', e :: c' in Filtered(p, q, lower) && t' in c'.topics && e in t'.examples ==>
      Hits(c'.category, q, lower) || TopicMatches(t', q, lower) || Hits(e, q, lower)
  {
    FilteredFrom(p, q, lower);
    forall c', t' | c' in Filtered(p, q, lower) && t' in c'.topics && !Hits(c'.category, q, lower)
      ensures TopicMatches(t', q, lower) || SomeExampleHits(t', q, lower)
      ensures forall e :: e in t'.examples ==> TopicMatches(t', q, lower) || Hits(e, q, lower)
    {
      var k :| 0 <= k < |p| && FilterCategory(p[k], q, lower) == Some(c');
      var c := p[k];
      FilterTopicsFrom(c.topics, q, lower, false);
      var j :| 0 <= j < |c.topics| && FilterTopic(c.topics[j], q, lower, false) == Some(t');
      FilterTopicRule(c.topics[j], q, lower, false);
      if !TopicMatches(t', q, lower) {
        assert t'.examples[0] in t'.examples;
      }
    }
  }

  /** A category whose name matches is shown whole. */
  lemma CategoryMatchShown(p: seq<Category>, q: string, lower: string -> string)
    ensures forall c :: c in p && Hits(c.category, q, lower) ==> c in Filtered(p, q, lower)
  {
    FilteredKeeps(p, q, lower);
    forall c | c in p && Hits(c.category, q, lower) ensures c in Filtered(p, q, lower) {
      var k :| 0 <= k < |p| && p[k] == c;
      FilterCategoryRule(c, q, lower);
    }
  }

  /** A topic the topic rule keeps is shown, as the rule makes it, under its category's name. */
  lemma TopicShownAt(p: seq<Category>, q: string, lower: string -> string, k: nat, t: Topic)
    requires k < |p| && t in p[k].topics
    requires FilterTopic(t, q, lower, Hits(p[k].category, q, lower)).Some?
    ensures exists c' ::
      && c' in Filtered(p, q, lower)
      && c'.category == p[k].category
      && FilterTopic(t, q, lower, Hits(p[k].category, q, lower)).value in c'.topics
  {
    var c := p[k];
    var cm := Hits(c.category, q, lower);
    FilteredKeeps(p, q, lower);
    FilterTopicRule(t, q, lower, cm);
    FilterCategoryRule(c, q, lower);
    var c' := FilterCategory(c, q, lower).value;
    if !cm {
      FilterTopicsKeeps(c.topics, q, lower, false);
      var j :| 0 <= j < |c.topics| && c.topics[j] == t;
      assert FilterTopic(t, q, lower, cm).value in c'.topics;
    }
  }

  /** A topic whose label matches is shown whole under its category's name. */
  lemma TopicMatchShown(p: seq<Category>, q: string, lower: string -> string)
    ensures forall c, t :: c in p && t in c.topics && TopicMatches(t, q, lower) ==>
      exists c' :: c' in Filtered(p, q, lower) && c'.category == c.category && t in c'.topics
  {
    forall c, t | c in p && t in c.topics && TopicMatches(t, q, lower)
      ensures exists c' :: c' in Filtered(p, q, lower) && c'.category == c.category && t in c'.topics
    {
      var k :| 0 <= k < |p| && p[k] == c;
      FilterTopicRule(t, q, lower, Hits(c.category, q, lower));
      TopicShownAt(p, q, lower, k, t);
    }
  }

  /** An example that matches is shown under its topic's id and its category's name. */
  lemma ExampleMatchShown(p: seq<Category>, q: string, lower: string -> string)
    ensures forall c, t, e :: c in p && t in c.topics && e in t.examples && Hits(e, q, lower) ==>
      exists c', t' ::
        && c' in Filtered(p, q, lower) && t' in c'.topics
        && c'.category == c.category && t'.id == t.id && e in t'.examples
  {
    forall c, t, e | c in p && t in c.topics && e in t.examples && Hits(e, q, lower)
      ensures exists c', t' ::
        && c' in Filtered(p, q, lower) && t' in c'.topics
        && c'.category == c.category && t'.id == t.id && e in t'.examples
    {
      var k :| 0 <= k < |p| && p[k] == c;
      var cm := Hits(c.category, q, lower);
      FilterTopicRule(t, q, lower, cm);
      var t' := FilterTopic(t, q, lower, cm).value;
      assert e in t'.examples;
      TopicShownAt(p, q, lower, k, t);
    }
  }

  /** Filtering the filtered palette under the same query changes nothing. */
  lemma {:induction false} FilteredIdempotent(p: seq<Category>, q: string, lower: string -> string)
    ensures Filtered(Filtered(p, q, lower), q, lower) == Filtered(p, q, lower)
  {
    if p != [] {
      var n := |p| - 1;
      var r := Filtered(p[..n], q, lower);
      FilteredIdempotent(p[..n], q, lower);
      match FilterCategory(p[n], q, lower)
      case Some(c') =>
        var c := p[n];
        if !Hits(c.category, q, lower) {
          FilterTopicsIdempotent(c.topics, q, lower, false);
        }
        assert FilterCategory(c', q, lower) == Some(c');
        assert (r + [c'])[..|r|] == r;
      case None =>
    }
  }

  /** The empty query is part of every text, so the filter would keep everything. */
  lemma {:induction false} EmptyQueryKeepsAll(p: seq<Category>, lower: string -> string)
    ensures Filtered(p, [], lower) == p
  {
    if p != [] {
      var n := |p| - 1;
      EmptyQueryKeepsAll(p[..n], lower);
      assert OccursAt(lower(p[n].category), [], 0);
      assert p == p[..n] + [p[n]];
    }
  }

  /** Filtering never adds examples to a list of topics. */
  lemma {:induction false} FilterTopicsExampleBound(ts: seq<Topic>, q: string, lower: string -> string, categoryMatches: bool)
    ensures ExampleSum(FilterTopics(ts, q, lower, categoryMatches)) <= ExampleSum(ts)
  {
    if ts != [] {
      var n := |ts| - 1;
      var r := FilterTopics(ts[..n], q, lower, categoryMatches);
      FilterTopicsExampleBound(ts[..n], q, lower, categoryMatches);
      match FilterTopic(ts[n], q, lower, categoryMatches)
      case Some(t') => ExampleSumSnoc(r, t');
      case None =>
    }
  }

  /** The filtered palette is no larger than the palette, figure by figure. */
  lemma {:induction false} FilteredSize(p: seq<Category>, q: string, lower: string -> string)
    ensures var before, after := Size(p), Size(Filtered(p, q, lower));
      && after.categories <= before.categories
      && after.topics <= before.topics
      && after.examples <= before.examples
  {
    if p != [] {
      var n := |p| - 1;
      var r := Filtered(p[..n], q, lower);
      FilteredSize(p[..n], q, lower);
      match FilterCategory(p[n], q, lower)
      case Some(c') =>
        CountsSnoc(r, c');
        FilterTopicsExampleBound(p[n].topics, q, lower, false);
      case None =>
    }
  }

  // ---------------------------------------------------------------------------
  // The filter
  // ---------------------------------------------------------------------------

  datatype FilterResult = FilterResult(data: seq<Category>, counts: Counts)

  /**
    The inner callback of `filterPalette`: one topic under the query, with the number
    of examples it adds to the running count (it adds one topic when it is kept).
  */
  method FilterTopicCounting(topic: Topic, normalised: string, lower: string -> string, categoryMatches: bool)
    returns (kept: Option<Topic>, examplesAdded: nat)
    ensures kept == FilterTopic(topic, normalised, lower, categoryMatches)
    ensures kept.Some? ==> examplesAdded == |kept.value.examples|
    ensures kept.None? ==> examplesAdded == 0
  {
    var topicMatches := Hits(topic.title, normalised, lower) || Hits(topic.rawTitle, normalised, lower);
    var exampleMatches := MatchingExamples(topic.examples, normalised, lower);
    if categoryMatches || topicMatches {
      return Some(topic), |topic.examples|;
    }
    if |exampleMatches| > 0 {
      return Some(topic.(examples := exampleMatches)), |exampleMatches|;
    }
    return None, 0;
  }

  /**
    The inner `category.topics.map(...).filter(Boolean)` of `filterPalette`: the
    topics of one category under the query, with the topics and examples they add to
    the running counts.
  */
  method FilterTopicsCounting(ts: seq<Topic>, normalised: string, lower: string -> string, categoryMatches: bool)
    returns (topics: seq<Topic>, topicsAdded: nat, examplesAdded: nat)
    ensures topics == FilterTopics(ts, normalised, lower, categoryMatches)
    ensures topicsAdded == |topics| && examplesAdded == ExampleSum(topics)
  {
    topics := [];
    topicsAdded, examplesAdded := 0, 0;
    for j := 0 to |ts|
      invariant topics == FilterTopics(ts[..j], normalised, lower, categoryMatches)
      invariant topicsAdded == |topics|
      invariant examplesAdded == ExampleSum(topics)
    {
      var kept, added := FilterTopicCounting(ts[j], normalised, lower, categoryMatches);
      FilterTopicsStep(ts, j, normalised, lower, categoryMatches);
      if kept.Some? {
        var t := kept.value;
        ExampleSumSnoc(topics, t);
        topicsAdded := topicsAdded + 1;
        examplesAdded := examplesAdded + added;
        topics := topics + [t];
      }
    }
    assert ts[..|ts|] == ts;
  }

  /**
    The outer callback of `filterPalette`: one category under the query, with the
    topics and examples it adds to the running counts.
  */
  method FilterCategoryCounting(category: Category, normalised: string, lower: string -> string)
    returns (kept: Option<Category>, topicsAdded: nat, examplesAdded: nat)
    ensures kept == FilterCategory(category, normalised, lower)
    ensures kept.Some? ==> topicsAdded == |kept.value.topics| && examplesAdded == ExampleSum(kept.value.topics)
    ensures kept.None? ==> topicsAdded == 0 && examplesAdded == 0
  {
    var categoryMatches := Hits(category.category, normalised, lower);
    var topics;
    topics, topicsAdded, examplesAdded := FilterTopicsCounting(category.topics, normalised, lower, categoryMatches);
    if categoryMatches {
      FilterTopicsKeepsAll(category.topics, normalised, lower);
      kept := Some(category);
    } else if |topics| > 0 {
      kept := Some(category.(topics := topics));
    } else {
      kept := None;
    }
  }

  /**
    The non-empty-query branch of `filterPalette`: `palette.map(...).filter(Boolean)`
    with the running topic and example counts.
  */
  method FilterNonEmpty(palette: seq<Category>, normalised: string, lower: string -> string)
    returns (data: seq<Category>, topicsCount: nat, examplesCount: nat)
    ensures data == Filtered(palette, normalised, lower)
    ensures topicsCount == TopicCount(data) && examplesCount == ExampleCount(data)
  {
    topicsCount, examplesCount := 0, 0;
    data := [];
    for i := 0 to |palette|
      invariant data == Filtered(palette[..i], normalised, lower)
      invariant topicsCount == TopicCount(data)
      invariant examplesCount == ExampleCount(data)
    {
      var kept, topicsAdded, examplesAdded := FilterCategoryCounting(palette[i], normalised, lower);
      FilteredStep(palette, i, normalised, lower);
      if kept.Some? {
        var c := kept.value;
        CountsSnoc(data, c);
        topicsCount := topicsCount + topicsAdded;
        examplesCount := examplesCount + examplesAdded;
        data := data + [c];
      }
    }
    assert palette[..|palette|] == palette;
  }

  /**
    `filterPalette`: normalise the query; an empty query shows the whole palette and
    its totals, any other narrows the palette while counting what it keeps.
  */
  method FilterPalette(palette: seq<Category>, query: string, lower: string -> string, trim: string -> string)
    returns (r: FilterResult)
    ensures var q := lower(trim(query));
      r.data == if q == [] then palette else Filtered(palette, q, lower)
    ensures r.counts == Size(r.data)
  {
    var normalised := lower(trim(query));
    if normalised == [] {
      var totals := Totals(palette);
      return FilterResult(palette, totals);
    }
    var data, topicsCount, examplesCount := FilterNonEmpty(palette, normalised, lower);
    return FilterResult(data, Counts(|data|, topicsCount, examplesCount));
  }
}
