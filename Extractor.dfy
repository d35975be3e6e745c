/** The header extractor: `parse_mdx_frontmatter`. The anchored, non-greedy
    pattern `^---\n(.*?)\n---\n(.*)` (DOTALL) is written out as string
    operations: the document must open with `---\n`, and the header runs up
    to the FIRST `\n---\n` found at or after index 4. */
module Extractor {
  import opened Values

  const Opening: string := "---\n"
  const Closing: string := "\n---\n"

  /** The outcome of `yaml.safe_load` on the header text: a parse error, or
      a document, which is null (`None`) or a mapping. */
  datatype YamlResult = YamlError(message: string) | Loaded(doc: Option<Header>)

  /** The pair `parse_mdx_frontmatter` returns: the header, if any, and the
      text handed on as the body. */
  datatype Parsed = Parsed(front: Option<Header>, body: string)

  predicate StartsWithOpening(s: string)
  {
    |s| >= 4 && s[..4] == Opening
  }

  /** A closing delimiter `\n---\n` starts at index `k` of `s`. */
  predicate ClosingAt(s: string, k: int)
  {
    0 <= k && k + 5 <= |s| && s[k..k + 5] == Closing
  }

  /** The first closing delimiter at or after `from`: the non-greedy search. */
  function FindClosing(s: string, from: nat): (r: Option<nat>)
    requires from <= |s|
    decreases |s| - from
    ensures r.Some? ==> from <= r.value && ClosingAt(s, r.value)
    ensures r.Some? ==> forall k :: from <= k < r.value ==> !ClosingAt(s, k)
    ensures r.None? ==> forall k :: from <= k ==> !ClosingAt(s, k)
  {
    if from + 5 > |s| then None
    else if s[from..from + 5] == Closing then Some(from)
    else FindClosing(s, from + 1)
  }

  /** `re.match` of the frontmatter pattern: the two groups, or no match. */
  function SplitFrontmatter(content: string): (r: Option<(string, string)>)
    ensures r.Some? ==> content == Opening + r.value.0 + Closing + r.value.1
  {
    if !StartsWithOpening(content) then None
    else match FindClosing(content, 4)
      case None => None
      case Some(i) => Some((content[4..i], content[i + 5..]))
  }

  /** `parse_mdx_frontmatter`, with `yaml.safe_load` as the parameter `load`.
      No match and a YAML error both give back the whole content; a null
      document gives no header but the matched remainder. */
  function ParseMdxFrontmatter(content: string, load: string -> YamlResult): (r: Parsed)
    ensures SplitFrontmatter(content).None? ==> r == Parsed(None, content)
    ensures r.front.Some? ==> SplitFrontmatter(content).Some? && r.body == SplitFrontmatter(content).value.1
    ensures SplitFrontmatter(content).Some? && load(SplitFrontmatter(content).value.0).Loaded? ==>
            r == Parsed(load(SplitFrontmatter(content).value.0).doc, SplitFrontmatter(content).value.1)
  {
    match SplitFrontmatter(content)
    case None => Parsed(None, content)
    case Some((yamlText, rest)) =>
      match load(yamlText)
      case YamlError(_) => Parsed(None, content)
      case Loaded(doc) => Parsed(doc, rest)
  }

  /** A match happens exactly when the content opens with `---\n` and has a
      closing delimiter somewhere at or after index 4. */
  lemma MatchIff(content: string)
    ensures SplitFrontmatter(content).Some? <==>
            StartsWithOpening(content) && exists k :: 4 <= k && ClosingAt(content, k)
  {
    if StartsWithOpening(content) && exists k :: 4 <= k && ClosingAt(content, k) {
      var k :| 4 <= k && ClosingAt(content, k);
      assert FindClosing(content, 4).Some?;
    }
  }

  /** Without an opening `---\n`, or without a later `\n---\n`, the extractor
      reports no header and hands back the content unchanged. */
  lemma NoMatchLeavesContent(content: string, load: string -> YamlResult)
    requires !StartsWithOpening(content) || forall k :: 4 <= k ==> !ClosingAt(content, k)
    ensures ParseMdxFrontmatter(content, load) == Parsed(None, content)
  {
    MatchIff(content);
  }

  /** The split is exactly the decomposition
      `content == "---\n" + header + "\n---\n" + rest` in which no closing
      delimiter starts inside the header: the first one is used. */
  lemma {:induction false} SplitIff(content: string, header: string, rest: string)
    ensures SplitFrontmatter(content) == Some((header, rest)) <==>
            content == Opening + header + Closing + rest &&
            forall k :: 4 <= k < 4 + |header| ==> !ClosingAt(content, k)
  {
    if content == Opening + header + Closing + rest &&
       forall k :: 4 <= k < 4 + |header| ==> !ClosingAt(content, k)
    {
      var i := 4 + |header|;
      assert |Opening| == 4 && |Closing| == 5;
      assert content[..4] == Opening by {
        assert forall j :: 0 <= j < 4 ==> content[j] == Opening[j];
      }
      assert content[i..i + 5] == Closing by {
        assert forall j :: 0 <= j < 5 ==> content[i + j] == Closing[j];
      }
      assert ClosingAt(content, i);
      var f := FindClosing(content, 4);
      assert f.Some?;
      assert f.value == i;
      assert content[4..i] == header;
      assert content[i + 5..] == rest;
    }
    if SplitFrontmatter(content) == Some((header, rest)) {
      var i := FindClosing(content, 4).value;
      assert content == content[..4] + content[4..i] + content[i..i + 5] + content[i + 5..];
    }
  }

  /** The header never contains the closing delimiter. */
  lemma HeaderHasNoClosing(content: string)
    requires SplitFrontmatter(content).Some?
    ensures forall j :: !ClosingAt(SplitFrontmatter(content).value.0, j)
  {
    var (header, rest) := SplitFrontmatter(content).value;
    SplitIff(content, header, rest);
    forall j | ClosingAt(header, j)
      ensures false
    {
      assert content[4 + j..4 + j + 5] == header[j..j + 5];
      assert ClosingAt(content, 4 + j);
    }
  }

  /** A YAML error, or a header that loads as null, is the no-frontmatter
      outcome; only the YAML error hands back the whole content. */
  lemma BadYamlIsNoFrontmatter(content: string, load: string -> YamlResult)
    requires SplitFrontmatter(content).Some?
    requires load(SplitFrontmatter(content).value.0).YamlError? ||
             load(SplitFrontmatter(content).value.0) == Loaded(None)
    ensures ParseMdxFrontmatter(content, load).front.None?
    ensures load(SplitFrontmatter(content).value.0).YamlError? ==>
            ParseMdxFrontmatter(content, load).body == content
    ensures load(SplitFrontmatter(content).value.0) == Loaded(None) ==>
            ParseMdxFrontmatter(content, load).body == SplitFrontmatter(content).value.1
  {
  }
}
