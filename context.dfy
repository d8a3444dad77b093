/** What the chatbot does with the documents the retriever returns: the context
    string handed to the prompt (`format_docs`), the list of sources stored
    with an answer, and the numbered excerpts shown under it. */
module Context {
  import opened Strings

  /** A retrieved chunk; the chatbot only ever reads its page content. */
  datatype Document = Document(pageContent: string)

  /** What `format_docs` puts between two documents. */
  const Separator := "\n\n"

  /** How many characters of a source an excerpt shows, and what follows them. */
  const ExcerptLength := 300
  const Ellipsis := "..."

  /** `[doc.page_content for doc in docs]`: one text per document, in
      retrieval order. */
  function Sources(docs: seq<Document>): (r: seq<string>)
    ensures |r| == |docs|
    ensures forall i :: 0 <= i < |docs| ==> r[i] == docs[i].pageContent
  {
    if docs == [] then [] else [docs[0].pageContent] + Sources(docs[1..])
  }

  /** `format_docs(docs)`: the page contents joined by a blank line. No
      documents give the empty context, one document gives its content as is. */
  function FormatDocs(docs: seq<Document>): (r: string)
    ensures docs == [] ==> r == ""
    ensures |docs| == 1 ==> r == docs[0].pageContent
  {
    Join(Separator, Sources(docs))
  }

  /** The context holds every document's content whole, in retrieval order:
      document `i` starts right after the context of the documents before it
      and one separator. */
  lemma FormatDocsInOrder(docs: seq<Document>, i: nat)
    requires i < |docs|
    ensures var start := if i == 0 then 0 else |FormatDocs(docs[..i])| + |Separator|;
            var content := docs[i].pageContent;
            start + |content| <= |FormatDocs(docs)| &&
            FormatDocs(docs)[start..start + |content|] == content
  {
    assert Sources(docs[..i]) == Sources(docs)[..i];
    JoinPartAt(Separator, Sources(docs), i);
  }

  /** The context is exactly the documents' text plus one separator between
      each neighbouring pair: nothing is dropped, truncated or added. */
  lemma FormatDocsLength(docs: seq<Document>)
    requires docs != []
    ensures |FormatDocs(docs)| == |Concat(Sources(docs))| + (|docs| - 1) * |Separator|
  {
    JoinLength(Separator, Sources(docs));
  }

  /** `source[:300] + "..."`: at most the first 300 characters of the source,
      then an ellipsis, which is always added, even to a short source. */
  function Excerpt(source: string): (r: string)
    ensures |r| == (if |source| < ExcerptLength then |source| else ExcerptLength) + |Ellipsis|
    ensures |r| <= ExcerptLength + |Ellipsis|
    ensures r[..|r| - |Ellipsis|] == source[..|r| - |Ellipsis|]
    ensures r[|r| - |Ellipsis|..] == Ellipsis
    ensures |source| <= ExcerptLength ==> r == source + Ellipsis
  {
    var shown := if |source| < ExcerptLength then |source| else ExcerptLength;
    source[..shown] + Ellipsis
  }

  /** One cited source under an answer: its number and its excerpt. */
  datatype Citation = Citation(number: nat, excerpt: string)

  /** `enumerate(sources, first)` with each source cut to its excerpt. */
  function NumberedFrom(sources: seq<string>, first: nat): (r: seq<Citation>)
    ensures |r| == |sources|
    ensures forall i :: 0 <= i < |sources| ==> r[i] == Citation(first + i, Excerpt(sources[i]))
  {
    if sources == [] then [] else [Citation(first, Excerpt(sources[0]))] + NumberedFrom(sources[1..], first + 1)
  }

  /** The citations shown for a list of sources: numbered 1 to n in source
      order, one per source. */
  function Citations(sources: seq<string>): (r: seq<Citation>)
    ensures |r| == |sources|
    ensures forall i :: 0 <= i < |sources| ==> r[i].number == i + 1 && r[i].excerpt == Excerpt(sources[i])
  {
    NumberedFrom(sources, 1)
  }

  /** The label markup around a citation's number. */
  const LabelOpen := "**[근거 "
  const LabelClose := "]**\n"

  /** `f"**[근거 {i}]**\n{excerpt}"`: the markdown shown for one citation. */
  function Render(c: Citation): string {
    LabelOpen + NatToString(c.number) + LabelClose + c.excerpt
  }

  /** In a rendered label the character right after the number is `]`. */
  lemma CloseFollowsNumber(d: string, e: string)
    ensures (d + LabelClose + e)[|d|] == ']'
  {
  }

  /** The number in a label ends at the first character of `LabelClose`, which
      is not a digit. */
  lemma NumberEndsAtLabel(d1: string, e1: string, d2: string, e2: string)
    requires IsDecimal(d1) && IsDecimal(d2)
    requires d1 + LabelClose + e1 == d2 + LabelClose + e2
    ensures d1 == d2
  {
    var s1, s2 := d1 + LabelClose + e1, d2 + LabelClose + e2;
    if |d1| < |d2| {
      CloseFollowsNumber(d1, e1);
      assert false;
    } else if |d2| < |d1| {
      CloseFollowsNumber(d2, e2);
      assert false;
    }
    assert d1 == s1[..|d1|] && d2 == s2[..|d2|];
  }

  /** A rendered citation gives back its number and its excerpt: no two
      different citations render alike. */
  lemma RenderInjective(c1: Citation, c2: Citation)
    requires Render(c1) == Render(c2)
    ensures c1 == c2
  {
    var d1, d2 := NatToString(c1.number), NatToString(c2.number);
    var s1, s2 := d1 + LabelClose + c1.excerpt, d2 + LabelClose + c2.excerpt;
    assert Render(c1) == LabelOpen + s1 && Render(c2) == LabelOpen + s2;
    assert s1 == Render(c1)[|LabelOpen|..] == s2;
    NumberEndsAtLabel(d1, c1.excerpt, d2, c2.excerpt);
    NatToStringRoundTrip(c1.number);
    NatToStringRoundTrip(c2.number);
    assert c1.excerpt == s1[|d1| + |LabelClose|..] == s2[|d2| + |LabelClose|..] == c2.excerpt;
  }
}
