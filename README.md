# Insurance-policy chatbot: a verified model of its bookkeeping

The chatbot (`app.py`, a Streamlit page) answers questions about one insurance
policy PDF. It loads the PDF, splits its text into chunks, indexes them with
embeddings, and for each question retrieves the three closest chunks, formats
them into the prompt's context and asks a language model. Parsing the PDF,
splitting, embedding, similarity search and the model itself are library calls.
What the page does itself is small and exact, and this project models it:

- **Loading guard** (`loader.dfy`, module `Loader`): an empty file gives
  `(None, 0)` before the PDF is read. The page texts are concatenated in page
  order by a `+=` loop. Text that is empty or whitespace only after
  concatenation gives `(None, 0)`. Otherwise the index is built and the number
  of chunks is returned. Any exception gives `(None, 0)`.
- **Context and sources** (`context.dfy`, module `Context`): `format_docs`
  joins the page contents of the retrieved documents with a blank line. The
  sources stored with an answer are the same contents in the same order. Each
  source is shown as its first 300 characters plus `...`, under a label
  numbered from 1.
- **Chat session** (`chat.dfy`, module `Chat`): the class `ChatSession` holds
  the chat history and the pending example question. The example buttons fill
  the pending slot. A pending question overrides the typed input and is then
  cleared. A falsy question changes nothing. An accepted question appends the
  user's turn. An assistant turn follows only when an answer came back, and it
  carries sources only when documents were retrieved. Reset empties the
  history.
- **Python string semantics** (`strings.dfy`, module `Strings`): `strip()` and
  `isspace()`, text built by `+=`, `sep.join(...)`, and `str(n)` for the
  citation numbers. `wrappers.dfy` holds the `Option` type.

Retrieval and generation enter as functions (`retrieve`, `generate`) or as the
`Outcome` they produced. Reading the PDF, the splitter and the indexing enter
as parameters of `LoadDocument`.

Behaviour worth knowing, as the code has it:

- A failed answer leaves the user's turn in the history. It is appended before
  the chain runs (app.py:164), and nothing removes it.
- A question of only spaces is truthy in Python and is accepted.
- Nothing retries, and nothing truncates the context. The context is every
  retrieved document, whole.
- `...` is added to every excerpt, even to a source shorter than 300
  characters.
- The reset button does not clear a pending example question.

## Model

| member | source | states |
|---|---|---|
| Strings.TrimStart | app.py:70 | the leading-whitespace strip leaves a suffix of the text; everything dropped is whitespace and what is left starts with non-whitespace |
| Strings.TrimEnd | app.py:70 | the trailing-whitespace strip leaves a prefix of the text; everything dropped is whitespace and what is left ends with non-whitespace |
| Strings.Strip | app.py:70 | `text.strip()` is empty if and only if every character is Python whitespace; otherwise it neither starts nor ends with whitespace |
| Strings.ConcatAppend | app.py:63-66 | `Strings.Concat` is the text the `text += page_text` loop (app.py:63-66) accumulates; over two runs of pages it is the text of the first run followed by the text of the second |
| Strings.ConcatPartAt | app.py:63-66 | every page's text sits whole in the accumulated text, right after the text of the pages before it |
| Strings.ConcatAllSpace | app.py:63-70 | the accumulated text is whitespace only if and only if every page's text is |
| Strings.JoinAppend | app.py:124 | `Strings.Join` is Python's `sep.join(parts)` (app.py:124); joining two non-empty runs of parts is their joins with one separator between |
| Strings.JoinLength | app.py:124 | a join is as long as its parts together plus one separator per neighbouring pair |
| Strings.JoinPartAt | app.py:124 | every part sits whole in the join, right after the join of the parts before it and one separator |
| Strings.NatToString | app.py:152 | `str(i)` of a citation number is a non-empty string of decimal digits with no leading zero |
| Strings.NatToStringRoundTrip | app.py:152 | reading the digits of `str(n)` back gives `n` |
| Context.Sources | app.py:190 | the sources list has one entry per retrieved document, the document's page content, in retrieval order |
| Context.FormatDocs | app.py:123-124 | no documents give the empty context; a single document gives its content unchanged |
| Context.FormatDocsInOrder | app.py:123-124 | each document's content appears whole in the context, in retrieval order, after the earlier documents and one blank-line separator |
| Context.FormatDocsLength | app.py:123-124 | the context is exactly the contents plus one separator between neighbours: nothing dropped, cut or added |
| Context.Excerpt | app.py:192-193 | an excerpt is the first `min(300, len)` characters of the source followed by `...`, so at most 303 characters; a source of 300 characters or fewer is shown whole |
| Context.NumberedFrom | app.py:151-152 | `enumerate(sources, start)` with excerpts: one citation per source, numbered consecutively from `start` in source order |
| Context.Citations | app.py:192-193 | the shown citations are numbered 1 to n in source order, each with its source's excerpt |
| Context.RenderInjective | app.py:152 | `Context.Render` is the markdown shown for one citation, its bold bracketed number label, a newline and the excerpt (app.py:152, 193); a rendered citation label determines its number and its excerpt |
| Loader.LoadDocument | app.py:50-94 | a zero-size file, a read failure, blank concatenated text or an indexing failure give `(None, 0)`, and only those; otherwise the store holds the chunks of the page texts concatenated in page order and the count is their number |
| Loader.BlankIffEveryPageBlank | app.py:63-72 | `Strings.IsBlank` is `not text.strip()` (app.py:70); the blank-text guard refuses the document if and only if every page's text is empty or whitespace only |
| Chat.Attempt | app.py:171-184 | an answer comes back if and only if retrieval and generation both succeed; the model is given the retrieved documents formatted by `format_docs` and the question |
| Chat.Exchange | app.py:164-204 | an accepted question adds the user's turn first; an assistant turn with the answer follows only on success; it has sources exactly when documents were retrieved, and they are the page contents in retrieval order |
| Chat.ExchangeKeepsWellFormed | app.py:162-204 | appending a question's turns keeps the history well formed: it starts with a question, every answer directly follows a question, and sources are never empty and never more than `k` |
| Chat.SaidAppend | app.py:164-204 | what is said in a role over two stretches of history is what is said in each, in order |
| Chat.ExchangeRecords | app.py:164-206 | an accepted question adds exactly itself to the questions asked, and adds its answer to the answers given exactly when one came back |
| Chat.LastPressed | app.py:141-143 | finds the last pressed example button, or reports that none was pressed |
| Chat.ChatSession.constructor | app.py:104-105 | a new session starts with an empty history and no pending example |
| Chat.ChatSession.PressExamples | app.py:141-143 | the button loop makes the last pressed button's question the pending one; with no press the pending slot is unchanged; the history is untouched |
| Chat.ChatSession.TakeQuestion | app.py:155-160 | a pending example question replaces the typed input and the slot is empty afterwards; with nothing pending the typed input is the question |
| Chat.ChatSession.Ask | app.py:162-206 | `Chat.Truthy` is Python's truth value of the question (app.py:162); a falsy question leaves the history unchanged; otherwise the history grows by exactly that question's exchange, so by 2 on success and by 1, ending with the user's turn, on failure; earlier turns are never changed |
| Chat.ChatSession.Submit | app.py:155-206 | one run takes the question, and only for a truthy one runs the chain and records the exchange; the pending slot ends empty |
| Chat.ChatSession.Reset | app.py:209-210 | the reset button empties the history and leaves the pending slot alone |
| Chat.ResetThenAsk | app.py:162-210 | after a reset, an accepted question leaves a history made only of that question's turns |

## Left out

- The Streamlit page itself is presentation: page config, titles, markdown,
  spinners, chat bubbles, expanders and `st.rerun` (app.py:15-23, 97-101,
  129-155, 165-186, 213-229). So is the first-page sample (app.py:67-68).
- The API-key entry and the environment variable it sets are credential
  plumbing (app.py:26-33).
- The file-existence check, the directory listing and `os.path.getsize` are
  filesystem I/O (app.py:41-45, 52). The size enters as a number.
- `PdfReader` and `extract_text` parse the PDF in foreign code. The page texts
  enter as a list. A failure while reading any page enters as `None`.
- The text splitter is foreign code. Only its configuration (1000 characters,
  200 overlap) is visible, so the model makes no claim about chunk boundaries
  or overlap and takes the splitter as a function parameter (app.py:77-82).
- Embedding, `FAISS.from_texts` and the similarity search use floating point
  in foreign code (app.py:86-87, 126). Indexing success is a parameter. The
  retriever's `k = 3` is assumed: `Ask` and `Submit` require at most 3
  retrieved documents.
- The prompt template, `ChatOpenAI` and the chain are a foreign model call
  (app.py:108-120, 177-184). The model is a function from context and question
  to an answer or a failure. The template text is not rendered.
- `@st.cache_resource` memoises the load for the process lifetime (app.py:47).
  It is framework behaviour, and the load is modelled as one call.
- Whether the chat part of the page runs at all depends on the load result
  (app.py:100). The model keeps the load and the session separate.
- The error text shown on a failed answer (app.py:206) is not kept: it is not
  part of the history.
