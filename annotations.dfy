/**
 * The annotations of JavaScriptBuilder: `@copyTo` read from a comment's raw
 * text, `@generatedFrom` read from the raw text (isGenerated) and from the
 * parsed tags (getGeneratedFrom), and the rewrite of a copy's tags
 * (replaceCopyTo).
 */
module Annotations {
  import opened Wrappers
  import opened JavaStrings
  import opened JsDom

  const CopyToTag: string := "@copyTo"
  const GeneratedFromTag: string := "@generatedFrom"

  /**
   * getCopyTo: the text after the first "@copyTo" up to the next newline
   * (or the end), split at commas; None when the text has no "@copyTo".
   * The fragments are not trimmed here.
   */
  function GetCopyTo(text: string): (r: Option<seq<string>>)
    ensures r.None? <==> !Contains(text, CopyToTag)
  {
    var index := IndexOfSub(text, CopyToTag);
    if index >= 0 then
      var start := index + |CopyToTag|;
      var newline := IndexOfFrom(text, '\n', start);
      var end := if newline == -1 then |text| else newline;
      Some(Split(text[start..end], ','))
    else
      None
  }

  /**
   * The fragments of getCopyTo, given independently of how they are found:
   * for the first occurrence of "@copyTo" at `i` and the line end `stop`
   * after it, the fragments joined with commas are a prefix of the text
   * between, what follows that prefix is commas only, and no fragment holds
   * a comma or a newline.
   */
  lemma CopyToFragments(text: string, i: nat, stop: nat)
    requires OccursAt(text, CopyToTag, i)
    requires forall k :: 0 <= k < i ==> !OccursAt(text, CopyToTag, k)
    requires i + |CopyToTag| <= stop <= |text|
    requires forall k :: i + |CopyToTag| <= k < stop ==> text[k] != '\n'
    requires stop == |text| || text[stop] == '\n'
    ensures GetCopyTo(text).Some?
    ensures var frags := GetCopyTo(text).value;
            var segment := text[i + |CopyToTag|..stop];
            var joined := Join(frags, ',');
            && |joined| <= |segment| && segment[..|joined|] == joined
            && (forall k :: |joined| <= k < |segment| ==> segment[k] == ',')
            && (forall k, j :: 0 <= k < |frags| && 0 <= j < |frags[k]| ==> frags[k][j] != ',' && frags[k][j] != '\n')
  {
    CopyToSegment(text, i, stop);
    SplitShape(text[i + |CopyToTag|..stop], ',');
  }

  /** For the first "@copyTo" at `i` and the line end `stop` after it, getCopyTo splits the text between. */
  lemma CopyToSegment(text: string, i: nat, stop: nat)
    requires OccursAt(text, CopyToTag, i)
    requires forall k :: 0 <= k < i ==> !OccursAt(text, CopyToTag, k)
    requires i + |CopyToTag| <= stop <= |text|
    requires forall k :: i + |CopyToTag| <= k < stop ==> text[k] != '\n'
    requires stop == |text| || text[stop] == '\n'
    ensures GetCopyTo(text) == Some(Split(text[i + |CopyToTag|..stop], ','))
  {
    IndexOfSubAt(text, CopyToTag, i);
    var newline := IndexOfFrom(text, '\n', i + |CopyToTag|);
    assert newline == -1 || newline == stop;
  }

  /**
   * Trailing commas are dropped: once the text between "@copyTo" and the
   * line end holds a comma, the last fragment, if any, is not empty.
   */
  lemma LastFragmentNotEmpty(text: string, i: nat, stop: nat)
    requires OccursAt(text, CopyToTag, i)
    requires forall k :: 0 <= k < i ==> !OccursAt(text, CopyToTag, k)
    requires i + |CopyToTag| <= stop <= |text|
    requires forall k :: i + |CopyToTag| <= k < stop ==> text[k] != '\n'
    requires stop == |text| || text[stop] == '\n'
    requires ',' in text[i + |CopyToTag|..stop]
    ensures GetCopyTo(text).Some?
    ensures var frags := GetCopyTo(text).value; frags == [] || frags[|frags| - 1] != ""
  {
    CopyToSegment(text, i, stop);
  }

  /** A one-line comment keeps its closing marker in the last fragment. */
  lemma OneLineCopyTo()
    ensures GetCopyTo("/** @copyTo b.js */") == Some([" b.js */"])
  {
    var segment := " b.js */";
    assert "/** @copyTo b.js */" == "/** " + CopyToTag + segment;
    assert '\n' !in segment && ',' !in segment;
    OneLineParts(segment);
  }

  // getCopyTo on a comment opener, "@copyTo" and a rest without a newline: the tag is found at 4 and the rest is the segment.
  lemma OneLineParts(segment: string)
    requires '\n' !in segment
    ensures var text := "/** " + CopyToTag + segment;
      GetCopyTo(text) == Some(Split(segment, ','))
  {
    var text := "/** " + CopyToTag + segment;
    assert text[4..11] == CopyToTag;
    forall k | 0 <= k < 4 ensures !OccursAt(text, CopyToTag, k) {
      assert text[k] != '@';
    }
    IndexOfSubAt(text, CopyToTag, 4);
    forall k | 11 <= k < |text| ensures text[k] != '\n' {
      assert text[k] == segment[k - 11];
    }
    assert text[11..|text|] == segment;
  }

  /** isGenerated: the raw comment text contains "@generatedFrom " followed by `path`. */
  predicate IsGenerated(text: string, path: string)
  {
    Contains(text, GeneratedFromTag + " " + path)
  }

  /** The test is on text, not on whole paths: a longer path with the same prefix matches too. */
  lemma GeneratedPrefixMatch()
    ensures IsGenerated("@generatedFrom /p/a.jsx", "/p/a.js")
  {
    ContainsPrefix(GeneratedFromTag + " " + "/p/a.js", "x");
    assert GeneratedFromTag + " " + "/p/a.js" + "x" == "@generatedFrom /p/a.jsx";
  }

  /**
   * isGenerated is closed under shortening the path: a comment generated
   * from `path + more` counts as generated from `path` too.
   */
  lemma GeneratedPrefixClosed(text: string, path: string, more: string)
    requires IsGenerated(text, path + more)
    ensures IsGenerated(text, path)
  {
    var short := GeneratedFromTag + " " + path;
    assert GeneratedFromTag + " " + (path + more) == short + more;
    var i :| 0 <= i <= |text| && OccursAt(text, short + more, i);
    assert text[i..i + |short|] == (short + more)[..|short|] == short;
    assert OccursAt(text, short, i);
  }

  /** A tag getGeneratedFrom accepts: named "@generatedFrom", with a fragment. */
  predicate IsSourceTag(t: Tag)
  {
    t.name == GeneratedFromTag && |t.fragments| > 0
  }

  /**
   * getGeneratedFrom: the first fragment of the first "@generatedFrom" tag
   * that has a fragment; tags of any other name are passed over.
   */
  function GetGeneratedFrom(tags: seq<Tag>): (r: Option<string>)
    ensures r.None? <==> forall k :: 0 <= k < |tags| ==> !IsSourceTag(tags[k])
    ensures r.Some? ==> exists k :: 0 <= k < |tags| && IsSourceTag(tags[k]) && r.value == tags[k].fragments[0]
                                    && forall j :: 0 <= j < k ==> !IsSourceTag(tags[j])
  {
    if tags == [] then None
    else if IsSourceTag(tags[0]) then Some(tags[0].fragments[0])
    else
      var r := GetGeneratedFrom(tags[1..]);
      assert forall k :: 1 <= k < |tags| ==> tags[k] == tags[1..][k - 1];
      r
  }

  /** replaceCopyTo on one tag: a "@copyTo" tag becomes "@generatedFrom" with the source path as only fragment. */
  function RewriteTag(t: Tag, source: string): Tag
  {
    if t.name == CopyToTag then Tag(GeneratedFromTag, [source]) else t
  }

  /**
   * The tags of a copy after replaceCopyTo: no tag is named "@copyTo" any
   * more, each former "@copyTo" tag is "@generatedFrom" holding only the
   * source path, and every other tag, the number of tags and their order
   * are kept.
   */
  function RewriteTags(tags: seq<Tag>, source: string): (r: seq<Tag>)
    ensures |r| == |tags|
    ensures forall k :: 0 <= k < |r| ==> r[k].name != CopyToTag
    ensures forall k :: 0 <= k < |r| && tags[k].name == CopyToTag ==> r[k] == Tag(GeneratedFromTag, [source])
    ensures forall k :: 0 <= k < |r| && tags[k].name != CopyToTag ==> r[k] == tags[k]
  {
    seq(|tags|, k requires 0 <= k < |tags| => RewriteTag(tags[k], source))
  }

  /** Rewriting twice is rewriting once. */
  lemma RewriteTagsIdempotent(tags: seq<Tag>, source: string)
    ensures RewriteTags(RewriteTags(tags, source), source) == RewriteTags(tags, source)
  {
  }

  /**
   * The copy records its source: when a "@copyTo" tag comes before any
   * usable "@generatedFrom" tag, getGeneratedFrom of the rewritten tags is
   * the source path.
   */
  lemma {:induction false} RewriteRecordsSource(tags: seq<Tag>, source: string, k: nat)
    requires k < |tags| && tags[k].name == CopyToTag
    requires forall j :: 0 <= j < k ==> !IsSourceTag(tags[j])
    ensures GetGeneratedFrom(RewriteTags(tags, source)) == Some(source)
  {
    var r := RewriteTags(tags, source);
    assert IsSourceTag(r[k]);
    var g := GetGeneratedFrom(r);
    var m :| 0 <= m < |r| && IsSourceTag(r[m]) && g.value == r[m].fragments[0]
             && forall j :: 0 <= j < m ==> !IsSourceTag(r[j]);
    assert m <= k;
  }

  /** The raw text the model gives a rewritten comment: one line per tag, the name then each fragment after a space. */
  function RenderDoc(tags: seq<Tag>): string
  {
    "/**" + RenderTags(tags) + "\n */"
  }

  function RenderTags(tags: seq<Tag>): string
  {
    if tags == [] then [] else RenderTag(tags[0]) + RenderTags(tags[1..])
  }

  function RenderTag(t: Tag): string
  {
    "\n * " + t.name + RenderFragments(t.fragments)
  }

  function RenderFragments(fragments: seq<string>): string
  {
    if fragments == [] then [] else " " + fragments[0] + RenderFragments(fragments[1..])
  }

  /** A rendered "@generatedFrom" tag is found again by isGenerated. */
  lemma {:induction false} RenderedSourceIsGenerated(tags: seq<Tag>, k: nat, source: string)
    requires k < |tags| && tags[k] == Tag(GeneratedFromTag, [source])
    ensures IsGenerated(RenderDoc(tags), source)
  {
    RenderedTagFound(tags, k, source);
    ContainsInContext("/**", RenderTags(tags), "\n */", GeneratedFromTag + " " + source);
  }

  lemma {:induction false} RenderedTagFound(tags: seq<Tag>, k: nat, source: string)
    requires k < |tags| && tags[k] == Tag(GeneratedFromTag, [source])
    ensures Contains(RenderTags(tags), GeneratedFromTag + " " + source)
  {
    var needle := GeneratedFromTag + " " + source;
    if k == 0 {
      assert RenderFragments([source]) == " " + source + RenderFragments([]);
      assert RenderTag(tags[0]) == "\n * " + needle;
      ContainsPrefix(needle, []);
      assert needle + [] == needle;
      ContainsInContext("\n * ", needle, RenderTags(tags[1..]), needle);
      assert RenderTags(tags) == "\n * " + needle + RenderTags(tags[1..]);
    } else {
      RenderedTagFound(tags[1..], k - 1, source);
      ContainsInContext(RenderTag(tags[0]), RenderTags(tags[1..]), [], needle);
      assert RenderTag(tags[0]) + RenderTags(tags[1..]) + [] == RenderTags(tags);
    }
  }
}
