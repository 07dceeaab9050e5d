/**
  The palette: the artefact the extraction writes and the page reads. Categories
  hold topics, topics hold example sentences.
*/
module Palette {

  datatype Topic = Topic(id: int, title: string, rawTitle: string, examples: seq<string>)

  datatype Category = Category(category: string, topics: seq<Topic>)

  /** The three figures the page shows above the list. */
  datatype Counts = Counts(categories: nat, topics: nat, examples: nat)

  /** The number of examples over a sequence of topics. */
  function ExampleSum(ts: seq<Topic>): nat {
    if ts == [] then 0 else ExampleSum(ts[..|ts| - 1]) + |ts[|ts| - 1].examples|
  }

  /** The number of topics over all categories. */
  function TopicCount(p: seq<Category>): nat {
    if p == [] then 0 else TopicCount(p[..|p| - 1]) + |p[|p| - 1].topics|
  }

  /** The number of examples over all topics of all categories. */
  function ExampleCount(p: seq<Category>): nat {
    if p == [] then 0 else ExampleCount(p[..|p| - 1]) + ExampleSum(p[|p| - 1].topics)
  }

  /** What the palette holds: its categories, their topics and their examples. */
  function Size(p: seq<Category>): (c: Counts)
    ensures c.categories == |p|
    ensures c.topics == 0 ==> c.examples == 0
  {
    NoTopicsNoExamples(p);
    Counts(|p|, TopicCount(p), ExampleCount(p))
  }

  /** Examples are only counted inside topics. */
  lemma {:induction false} NoTopicsNoExamples(p: seq<Category>)
    ensures TopicCount(p) == 0 ==> ExampleCount(p) == 0
  {
    if p != [] {
      NoTopicsNoExamples(p[..|p| - 1]);
    }
  }
}
