/** `load_pdf_and_create_vectorstore`: the guards around building the index of
    the policy document. Reading the PDF, splitting the text into chunks and
    embedding them are foreign code; they come in as parameters. */
module Loader {
  import opened Wrappers
  import opened Strings

  /** The FAISS index built over the chunks; only the chunk texts are kept. */
  datatype VectorStore = VectorStore(chunks: seq<string>)

  /** Loads the document and returns the index with its number of chunks, or
      `(None, 0)`.
      `fileSize` is what `os.path.getsize` reported; `pages` is the text
      `extract_text()` gave for each page in page order, or `None` when reading
      the PDF raised; `split` is the text splitter; `indexes(chunks)` says
      whether embedding the chunks and building the index succeeded. Every
      exception is caught and gives `(None, 0)`.
      An empty file is refused before the PDF is read; text that is empty or
      whitespace only once the pages are concatenated is refused before it is
      split; otherwise the count is the number of chunks the index holds. */
  method LoadDocument(fileSize: nat, pages: Option<seq<string>>,
                      split: string -> seq<string>, indexes: seq<string> -> bool)
    returns (store: Option<VectorStore>, count: nat)
    ensures fileSize == 0 ==> store == None && count == 0
    ensures store == None ==> count == 0
    ensures store != None <==>
              fileSize != 0 && pages != None && !IsBlank(Concat(pages.value)) &&
              indexes(split(Concat(pages.value)))
    ensures store != None ==>
              store.value.chunks == split(Concat(pages.value)) && count == |store.value.chunks|
  {
    if fileSize == 0 {
      return None, 0;
    }
    if pages == None {
      return None, 0;
    }
    var texts := pages.value;
    var text := "";
    for i := 0 to |texts|
      invariant text == Concat(texts[..i])
    {
      assert texts[..i + 1][..i] == texts[..i];
      text := text + texts[i];
    }
    assert texts[..|texts|] == texts;
    if IsBlank(text) {
      return None, 0;
    }
    var chunks := split(text);
    if !indexes(chunks) {
      return None, 0;
    }
    return Some(VectorStore(chunks)), |chunks|;
  }

  /** The text is blank exactly when every page is empty or whitespace only:
      a document whose pages all extract to whitespace loads as `(None, 0)`,
      and one page with real text is enough to get past the guard. */
  lemma BlankIffEveryPageBlank(texts: seq<string>)
    ensures IsBlank(Concat(texts)) <==> forall i :: 0 <= i < |texts| ==> IsBlank(texts[i])
  {
    ConcatAllSpace(texts);
  }
}
