/** The quick search of `App`: the trimmed, lower-cased query is matched as a
    substring of each section's lower-cased `title + " " + heading`, in
    catalog order, and at most eight matches are kept. */
module Search {
  import opened Text
  import opened Catalog
  import opened Index

  /** What the search pushes for a matching section. */
  datatype Hit = Hit(chapterId: string, heading: string, title: string)

  /** The fixed cap of `items.slice(0, 8)`. */
  const MaxResults: nat := 8

  /** `query.trim().toLowerCase()`. */
  function Normalize(query: string): string {
    Lower(Trim(query))
  }

  /** The lower-cased text a section is matched against. */
  function Haystack(title: string, heading: string): string {
    Lower(title + " " + heading)
  }

  predicate EntryMatches(e: IndexEntry, q: string) {
    Contains(Haystack(e.chapterTitle, e.heading), q)
  }

  function HitOf(e: IndexEntry): Hit {
    Hit(e.chapterId, e.heading, e.chapterTitle)
  }

  /** The full, uncapped match list over an index, in index order. */
  function Matching(ix: seq<IndexEntry>, q: string): seq<Hit>
    decreases |ix|
  {
    if ix == [] then []
    else Matching(ix[..|ix| - 1], q) + (if EntryMatches(ix[|ix| - 1], q) then [HitOf(ix[|ix| - 1])] else [])
  }

  /** What the search returns, as a function of the catalog and the raw query. */
  function Query(cat: seq<Chapter>, query: string): (r: seq<Hit>)
    ensures |r| <= MaxResults
  {
    var q := Normalize(query);
    if q == [] then []
    else
      var m := Matching(Flatten(cat), q);
      if |m| <= MaxResults then m else m[..MaxResults]
  }

  /** Matching distributes over concatenation of indexes: it keeps the order
      of the index and drops nothing that matches and duplicates nothing. */
  lemma {:induction false} MatchingAppend(a: seq<IndexEntry>, b: seq<IndexEntry>, q: string)
    ensures Matching(a + b, q) == Matching(a, q) + Matching(b, q)
    decreases |b|
  {
    if b == [] {
      assert a + b == a;
    } else {
      var b' := b[..|b| - 1];
      assert (a + b)[..|a + b| - 1] == a + b';
      assert (a + b)[|a + b| - 1] == b[|b| - 1];
      MatchingAppend(a, b', q);
    }
  }

  /** Every match comes from an index entry whose haystack contains the query. */
  lemma {:induction false} MatchingSound(ix: seq<IndexEntry>, q: string, k: nat)
    requires k < |Matching(ix, q)|
    ensures exists j :: 0 <= j < |ix| && EntryMatches(ix[j], q) && Matching(ix, q)[k] == HitOf(ix[j])
    decreases |ix|
  {
    var init := ix[..|ix| - 1];
    if k < |Matching(init, q)| {
      MatchingSound(init, q, k);
      var j :| 0 <= j < |init| && EntryMatches(init[j], q) && Matching(init, q)[k] == HitOf(init[j]);
      assert init[j] == ix[j];
    } else {
      assert EntryMatches(ix[|ix| - 1], q);
    }
  }

  /** Every index entry whose haystack contains the query is among the matches. */
  lemma {:induction false} MatchingComplete(ix: seq<IndexEntry>, q: string, j: nat)
    requires j < |ix| && EntryMatches(ix[j], q)
    ensures HitOf(ix[j]) in Matching(ix, q)
    decreases |ix|
  {
    var init := ix[..|ix| - 1];
    if j < |ix| - 1 {
      assert init[j] == ix[j];
      MatchingComplete(init, q, j);
    }
  }

  /** An empty or whitespace-only query finds nothing. */
  lemma QueryBlank(cat: seq<Chapter>, query: string)
    requires forall i :: 0 <= i < |query| ==> IsWhitespace(query[i])
    ensures Query(cat, query) == []
  {
    TrimEmptyIff(query);
  }

  /** `h` names the chapter and heading of some section of the catalog. */
  ghost predicate FromCatalog(cat: seq<Chapter>, h: Hit) {
    exists i, j :: 0 <= i < |cat| && 0 <= j < |cat[i].sections| && h == Hit(cat[i].id, cat[i].sections[j].heading, cat[i].title)
  }

  /** Each result is the match at the same position of the full match list. */
  lemma QueryAt(cat: seq<Chapter>, query: string, k: nat)
    requires k < |Query(cat, query)|
    ensures Normalize(query) != []
    ensures k < |Matching(Flatten(cat), Normalize(query))|
    ensures Query(cat, query)[k] == Matching(Flatten(cat), Normalize(query))[k]
  {
    var q := Normalize(query);
    var m := Matching(Flatten(cat), q);
    assert q != [];
    assert Query(cat, query) == if |m| <= MaxResults then m else m[..MaxResults];
  }

  lemma QuerySoundAt(cat: seq<Chapter>, query: string, k: nat)
    requires k < |Query(cat, query)|
    ensures Contains(Haystack(Query(cat, query)[k].title, Query(cat, query)[k].heading), Normalize(query))
    ensures FromCatalog(cat, Query(cat, query)[k])
  {
    var q := Normalize(query);
    var ix := Flatten(cat);
    var h := Query(cat, query)[k];
    QueryAt(cat, query, k);
    MatchingSound(ix, q, k);
    var j' :| 0 <= j' < |ix| && EntryMatches(ix[j'], q) && Matching(ix, q)[k] == HitOf(ix[j']);
    FlattenFrom(cat, j');
    var i, j :| 0 <= i < |cat| && 0 <= j < |cat[i].sections| && ix[j'] == EntryOf(cat[i], cat[i].sections[j]);
    assert h == Hit(cat[i].id, cat[i].sections[j].heading, cat[i].title);
  }

  /** Every result's lower-cased `title + " " + heading` contains the
      normalized query, and every result is the chapter and heading of a
      section of the catalog. */
  lemma QuerySound(cat: seq<Chapter>, query: string)
    ensures forall k :: 0 <= k < |Query(cat, query)| ==>
      Contains(Haystack(Query(cat, query)[k].title, Query(cat, query)[k].heading), Normalize(query))
    ensures forall k :: 0 <= k < |Query(cat, query)| ==> FromCatalog(cat, Query(cat, query)[k])
  {
    forall k | 0 <= k < |Query(cat, query)|
      ensures Contains(Haystack(Query(cat, query)[k].title, Query(cat, query)[k].heading), Normalize(query))
      ensures FromCatalog(cat, Query(cat, query)[k])
    {
      QuerySoundAt(cat, query, k);
    }
  }

  /** For a non-blank query the results are the first `min(8, n)` of the `n`
      matches in chapter-then-section order. */
  lemma QueryIsPrefix(cat: seq<Chapter>, query: string)
    requires Normalize(query) != []
    ensures Query(cat, query) <= Matching(Flatten(cat), Normalize(query))
    ensures |Query(cat, query)| == if |Matching(Flatten(cat), Normalize(query))| <= MaxResults
      then |Matching(Flatten(cat), Normalize(query))| else MaxResults
  {
  }

  /** When the cap is not reached, every matching section of the catalog is reported. */
  lemma QueryComplete(cat: seq<Chapter>, query: string, i: nat, j: nat)
    requires i < |cat| && j < |cat[i].sections|
    requires Normalize(query) != []
    requires Contains(Haystack(cat[i].title, cat[i].sections[j].heading), Normalize(query))
    requires |Matching(Flatten(cat), Normalize(query))| <= MaxResults
    ensures Hit(cat[i].id, cat[i].sections[j].heading, cat[i].title) in Query(cat, query)
  {
    var e := EntryOf(cat[i], cat[i].sections[j]);
    FlattenHasEvery(cat, i, j);
    var k :| 0 <= k < |Flatten(cat)| && Flatten(cat)[k] == e;
    MatchingComplete(Flatten(cat), Normalize(query), k);
  }

  lemma MatchingSnoc(ix: seq<IndexEntry>, e: IndexEntry, q: string)
    ensures Matching(ix + [e], q) == Matching(ix, q) + (if EntryMatches(e, q) then [HitOf(e)] else [])
  {
    assert (ix + [e])[..|ix|] == ix;
  }

  /** Associativity of concatenation, stated once for index sequences so the
      loop in `Results` can cite it; asserting it inline there costs the
      solver far more. */
  lemma ConcatAssoc(a: seq<IndexEntry>, b: seq<IndexEntry>, c: seq<IndexEntry>)
    ensures a + (b + c) == (a + b) + c
  {
  }

  /** The `results` memo: nested walks over chapters and their sections that
      push every match, then keep the first eight. */
  method Results(chapters: seq<Chapter>, query: string) returns (items: seq<Hit>)
    ensures items == Query(chapters, query)
  {
    var q := Normalize(query);
    if q == [] {
      return [];
    }
    items := [];
    var i := 0;
    assert chapters[..0] == [];
    while i < |chapters|
      invariant 0 <= i <= |chapters|
      invariant items == Matching(Flatten(chapters[..i]), q)
    {
      var c := chapters[i];
      var j := 0;
      ghost var before := Flatten(chapters[..i]);
      assert c.sections[..0] == [];
      assert before + ChapterEntries(c, c.sections[..0]) == before;
      while j < |c.sections|
        invariant 0 <= j <= |c.sections|
        invariant items == Matching(before + ChapterEntries(c, c.sections[..j]), q)
      {
        var s := c.sections[j];
        var hay := Haystack(c.title, s.heading);
        if Contains(hay, q) {
          items := items + [Hit(c.id, s.heading, c.title)];
        }
        ChapterEntriesSnoc(c, c.sections, j);
        MatchingSnoc(before + ChapterEntries(c, c.sections[..j]), EntryOf(c, s), q);
        ConcatAssoc(before, ChapterEntries(c, c.sections[..j]), [EntryOf(c, s)]);
        j := j + 1;
      }
      assert c.sections[..j] == c.sections;
      FlattenSnoc(chapters, i);
      i := i + 1;
    }
    assert chapters[..i] == chapters;
    if |items| > MaxResults {
      items := items[..MaxResults];
    }
  }
}
