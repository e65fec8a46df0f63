/** `flattenContent`: the catalog flattened into one entry per section, in
    chapter order and then section order, each carrying its permalink id. */
module Index {
  import opened Catalog
  import opened Permalink

  datatype IndexEntry = IndexEntry(id: string, chapterId: string, chapterTitle: string, heading: string)

  /** The entry `flattenContent` builds for section `s` of chapter `c`. */
  function EntryOf(c: Chapter, s: Section): IndexEntry {
    IndexEntry(c.id + "#" + Slug(s.heading), c.id, c.title, s.heading)
  }

  /** `c.sections.map(...)` over the sections `secs` of chapter `c`. */
  function ChapterEntries(c: Chapter, secs: seq<Section>): (r: seq<IndexEntry>)
    ensures |r| == |secs|
    ensures forall j :: 0 <= j < |secs| ==> r[j] == EntryOf(c, secs[j])
    decreases |secs|
  {
    if secs == [] then [] else ChapterEntries(c, secs[..|secs| - 1]) + [EntryOf(c, secs[|secs| - 1])]
  }

  /** The total number of sections in a catalog. */
  function SectionCount(cat: seq<Chapter>): nat
    decreases |cat|
  {
    if cat == [] then 0 else SectionCount(cat[..|cat| - 1]) + |cat[|cat| - 1].sections|
  }

  /** `chapters.flatMap(...)`: a single chapter flattens to its own entries;
      `FlattenAppend` extends this to a whole catalog. */
  function Flatten(cat: seq<Chapter>): (r: seq<IndexEntry>)
    ensures |cat| == 1 ==> r == ChapterEntries(cat[0], cat[0].sections)
    decreases |cat|
  {
    if cat == [] then []
    else
      assert |cat| == 1 ==> cat[..0] == [];
      Flatten(cat[..|cat| - 1]) + ChapterEntries(cat[|cat| - 1], cat[|cat| - 1].sections)
  }

  lemma ChapterEntriesSnoc(c: Chapter, secs: seq<Section>, j: nat)
    requires j < |secs|
    ensures ChapterEntries(c, secs[..j + 1]) == ChapterEntries(c, secs[..j]) + [EntryOf(c, secs[j])]
  {
    assert secs[..j + 1][..j] == secs[..j];
  }

  lemma FlattenSnoc(cat: seq<Chapter>, i: nat)
    requires i < |cat|
    ensures Flatten(cat[..i + 1]) == Flatten(cat[..i]) + ChapterEntries(cat[i], cat[i].sections)
  {
    assert cat[..i + 1][..i] == cat[..i];
  }

  /** The index has exactly one entry per section of the catalog. */
  lemma {:induction false} FlattenLength(cat: seq<Chapter>)
    ensures |Flatten(cat)| == SectionCount(cat)
    decreases |cat|
  {
    if cat != [] {
      FlattenLength(cat[..|cat| - 1]);
    }
  }

  /** Flattening a concatenation of catalogs concatenates their indexes. */
  lemma {:induction false} FlattenAppend(a: seq<Chapter>, b: seq<Chapter>)
    ensures Flatten(a + b) == Flatten(a) + Flatten(b)
    decreases |b|
  {
    if b != [] {
      var b' := b[..|b| - 1];
      assert (a + b)[..|a + b| - 1] == a + b';
      assert (a + b)[|a + b| - 1] == b[|b| - 1];
      FlattenAppend(a, b');
    } else {
      assert a + b == a;
    }
  }

  /** Every section of every chapter has its entry in the index. */
  lemma {:induction false} FlattenHasEvery(cat: seq<Chapter>, i: nat, j: nat)
    requires i < |cat| && j < |cat[i].sections|
    ensures EntryOf(cat[i], cat[i].sections[j]) in Flatten(cat)
    decreases |cat|
  {
    var init := cat[..|cat| - 1];
    if i < |cat| - 1 {
      assert init[i] == cat[i];
      FlattenHasEvery(init, i, j);
    } else {
      var last := ChapterEntries(cat[i], cat[i].sections);
      assert last[j] == EntryOf(cat[i], cat[i].sections[j]);
    }
  }

  /** Every index entry comes from some section of some chapter. */
  lemma {:induction false} FlattenFrom(cat: seq<Chapter>, k: nat)
    requires k < |Flatten(cat)|
    ensures exists i, j :: 0 <= i < |cat| && 0 <= j < |cat[i].sections| && Flatten(cat)[k] == EntryOf(cat[i], cat[i].sections[j])
    decreases |cat|
  {
    var init := cat[..|cat| - 1];
    var c := cat[|cat| - 1];
    if k < |Flatten(init)| {
      FlattenFrom(init, k);
      var i, j :| 0 <= i < |init| && 0 <= j < |init[i].sections| && Flatten(init)[k] == EntryOf(init[i], init[i].sections[j]);
      assert init[i] == cat[i];
    } else {
      var j := k - |Flatten(init)|;
      assert Flatten(cat)[k] == ChapterEntries(c, c.sections)[j];
      assert Flatten(cat)[k] == EntryOf(cat[|cat| - 1], cat[|cat| - 1].sections[j]);
    }
  }

  /** The id stored in every index entry is the id `Permalink` computes for
      the same chapter and heading. */
  lemma PermalinkAgrees(cat: seq<Chapter>, k: nat)
    requires k < |Flatten(cat)|
    ensures Flatten(cat)[k].id == PermalinkId(Flatten(cat)[k].chapterId, Flatten(cat)[k].heading)
  {
    FlattenFrom(cat, k);
  }
}
