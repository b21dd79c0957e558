/**
 * `parse_markdown_content`: the text of the first `<markdown>` element of a
 * reply, or "" when there is none.
 *
 * The source hands the text to an HTML parser. This model reads it as plain
 * text: lower-case tags without attributes, no comments, entities or nested
 * markup. An element left open runs to the end of the text, as the parser
 * closes open elements there.
 */
module MarkdownUtils {
  import opened Text

  const OpenTag := "<markdown>"
  const CloseTag := "</markdown>"

  /**
   * The content of the first `<markdown>` element: what follows the first
   * opening tag, up to the first closing tag after it or to the end of the
   * text. Without an opening tag the result is "".
   */
  function ParseMarkdownContent(text: string): (r: string)
    ensures !Contains(text, OpenTag) ==> r == ""
    ensures Contains(text, OpenTag) ==>
      var start := Find(text, OpenTag, 0) + |OpenTag|;
      (start <= |text| && r <= text[start..] &&
       (start + |r| == |text| || OccursAt(text, CloseTag, start + |r|)))
    ensures !Contains(r, CloseTag)
  {
    FindFirst(text, OpenTag, 0);
    var i := Find(text, OpenTag, 0);
    if i < 0 then
      ""
    else
      var start := i + |OpenTag|;
      FindFirst(text, CloseTag, start);
      var j := Find(text, CloseTag, start);
      var end := if j < 0 then |text| else j;
      assert !Contains(text[start..end], CloseTag) by {
        if Contains(text[start..end], CloseTag) {
          var k :| OccursAt(text[start..end], CloseTag, k);
          OccursInSlice(text, CloseTag, start, end, k);
        }
      }
      text[start..end]
  }

  /** Both tags begin with the only '<' they hold. */
  lemma TagsHaveUniqueHead()
    ensures UniqueHead(OpenTag) && UniqueHead(CloseTag)
  {
  }

  /** With both tags found, the result is the text between them. */
  lemma ContentBetween(text: string, i: int, j: int)
    requires i == Find(text, OpenTag, 0) && i >= 0
    requires j == Find(text, CloseTag, i + |OpenTag|) && j >= 0
    ensures ParseMarkdownContent(text) == text[i + |OpenTag|..j]
  {
  }

  /**
   * For `pre + "<markdown>" + x + "</markdown>" + post`, with no element in
   * `pre` and no markup in `x`, the result is exactly `x`: the text around
   * the element, later elements included, never reaches the result.
   */
  lemma FirstElementContent(pre: string, x: string, post: string)
    requires !Contains(pre, OpenTag)
    requires '<' !in x
    ensures ParseMarkdownContent(pre + OpenTag + x + CloseTag + post) == x
  {
    var text := pre + OpenTag + x + CloseTag + post;
    TagsHaveUniqueHead();
    assert text == pre + OpenTag + (x + CloseTag + post);
    FirstOccurrenceAfter(pre, OpenTag, x + CloseTag + post);
    var start := |pre| + |OpenTag|;
    var end := start + |x|;
    assert text[end..end + |CloseTag|] == CloseTag;
    forall k | start <= k < end
      ensures text[k] != CloseTag[0]
    {
      assert text[k] == x[k - start];
    }
    NoOccurrenceWithoutHead(text, CloseTag, start, end);
    FindIs(text, CloseTag, start, end);
    ContentBetween(text, |pre|, end);
    assert text[start..end] == x;
  }
}
