/** Permalink ids: `chapterId + "#" + heading.toLowerCase().replace(/[^a-z0-9]+/g, "-")`. */
module Permalink {
  import opened Text

  /** The characters the class `[a-z0-9]` matches. */
  predicate IsSlugChar(c: char) {
    'a' <= c <= 'z' || '0' <= c <= '9'
  }

  /** The characters a slug may contain. */
  predicate IsSlugAlphabet(c: char) {
    IsSlugChar(c) || c == '-'
  }

  /** Drops a leading run of characters outside `[a-z0-9]`. */
  function SkipRun(s: string): (r: string)
    ensures |r| <= |s| && r == s[|s| - |r|..]
    ensures forall i :: 0 <= i < |s| - |r| ==> !IsSlugChar(s[i])
    ensures r != [] ==> IsSlugChar(r[0])
    decreases |s|
  {
    if |s| > 0 && !IsSlugChar(s[0]) then SkipRun(s[1..]) else s
  }

  /** `s.replace(/[^a-z0-9]+/g, "-")`: each maximal run of characters outside
      `[a-z0-9]` becomes one `-`, which is never doubled; characters of the
      class are kept and a string that starts with one keeps it first. */
  function Collapse(s: string): (r: string)
    ensures forall i :: 0 <= i < |r| ==> IsSlugAlphabet(r[i])
    ensures forall i :: 0 <= i < |r| - 1 ==> !(r[i] == '-' && r[i + 1] == '-')
    ensures |s| > 0 && IsSlugChar(s[0]) ==> |r| > 0 && r[0] == s[0]
    ensures |r| <= |s|
    ensures r == [] <==> s == []
    decreases |s|
  {
    if s == [] then []
    else if IsSlugChar(s[0]) then [s[0]] + Collapse(s[1..])
    else "-" + Collapse(SkipRun(s[1..]))
  }

  /** The slug of a heading: lower-cased, then collapsed. It keeps every
      letter and digit of the lower-cased heading, in order, and nothing else
      besides `-`. */
  function Slug(heading: string): (r: string)
    ensures forall i :: 0 <= i < |r| ==> IsSlugAlphabet(r[i])
    ensures forall i :: 0 <= i < |r| - 1 ==> !(r[i] == '-' && r[i + 1] == '-')
    ensures |r| <= |heading|
    ensures Alnum(r) == Alnum(Lower(heading))
  {
    AlnumCollapse(Lower(heading));
    Collapse(Lower(heading))
  }

  /** The permalink id of a section (the expression in `Permalink`): the
      chapter id and `#`, followed by a part in the slug alphabet with no
      `--`, no longer than the heading, that keeps every letter and digit of
      the lower-cased heading in order. */
  function PermalinkId(chapterId: string, heading: string): (r: string)
    ensures |chapterId| + 1 <= |r| <= |chapterId| + 1 + |heading|
    ensures r[..|chapterId| + 1] == chapterId + "#"
    ensures forall i :: |chapterId| + 1 <= i < |r| ==> IsSlugAlphabet(r[i])
    ensures forall i :: |chapterId| + 1 <= i < |r| - 1 ==> !(r[i] == '-' && r[i + 1] == '-')
    ensures Alnum(r[|chapterId| + 1..]) == Alnum(Lower(heading))
  {
    var r := chapterId + "#" + Slug(heading);
    assert r[|chapterId| + 1..] == Slug(heading);
    r
  }

  /** A streaming reading of the same replacement, used as an independent
      reference: emit class characters, and one `-` on entering a run of
      other characters (`inRun` says a run is under way). */
  function Stream(s: string, inRun: bool): string
    decreases |s|
  {
    if s == [] then []
    else if IsSlugChar(s[0]) then [s[0]] + Stream(s[1..], false)
    else if inRun then Stream(s[1..], true)
    else "-" + Stream(s[1..], true)
  }

  lemma {:induction false} StreamSkipsRun(s: string)
    ensures Stream(s, true) == Stream(SkipRun(s), false)
    decreases |s|
  {
    if s != [] && !IsSlugChar(s[0]) {
      StreamSkipsRun(s[1..]);
    }
  }

  /** The run-based replacement and the streaming reference agree on every string. */
  lemma {:induction false} CollapseIsStream(s: string)
    ensures Collapse(s) == Stream(s, false)
    decreases |s|
  {
    if s != [] {
      if IsSlugChar(s[0]) {
        CollapseIsStream(s[1..]);
      } else {
        StreamSkipsRun(s[1..]);
        CollapseIsStream(SkipRun(s[1..]));
      }
    }
  }

  /** The `[a-z0-9]` characters of a string, in order. */
  function Alnum(s: string): string
    decreases |s|
  {
    if s == [] then [] else (if IsSlugChar(s[0]) then [s[0]] else []) + Alnum(s[1..])
  }

  lemma {:induction false} AlnumSkipRun(s: string)
    ensures Alnum(SkipRun(s)) == Alnum(s)
    decreases |s|
  {
    if s != [] && !IsSlugChar(s[0]) {
      AlnumSkipRun(s[1..]);
    }
  }

  lemma {:induction false} AlnumCollapse(s: string)
    ensures Alnum(Collapse(s)) == Alnum(s)
    decreases |s|
  {
    if s != [] {
      if IsSlugChar(s[0]) {
        AlnumCollapse(s[1..]);
        assert ([s[0]] + Collapse(s[1..]))[1..] == Collapse(s[1..]);
      } else {
        AlnumSkipRun(s[1..]);
        AlnumCollapse(SkipRun(s[1..]));
        assert ("-" + Collapse(SkipRun(s[1..])))[1..] == Collapse(SkipRun(s[1..]));
      }
    }
  }

  /** A string already in slug form is left alone by the replacement. */
  lemma {:induction false} CollapseSlugForm(s: string)
    requires forall i :: 0 <= i < |s| ==> IsSlugAlphabet(s[i])
    requires forall i :: 0 <= i < |s| - 1 ==> !(s[i] == '-' && s[i + 1] == '-')
    ensures Collapse(s) == s
    decreases |s|
  {
    if s != [] {
      if IsSlugChar(s[0]) {
        CollapseSlugForm(s[1..]);
      } else {
        assert s[1..] == [] || IsSlugChar(s[1..][0]);
        CollapseSlugForm(s[1..]);
        assert [s[0]] + s[1..] == s;
      }
    }
  }

  /** Slugging a slug changes nothing. */
  lemma SlugIdempotent(heading: string)
    ensures Slug(Slug(heading)) == Slug(heading)
  {
    var t := Slug(heading);
    LowerFixed(t);
    CollapseSlugForm(t);
  }
}
