# Bon à Savoir PDF tooling and chat accumulator, in Dafny

This project models the three pieces of self-contained logic in the custom-pdf-rag-app
repository and proves properties about them.

- **The PDF downloader** (`importer/bonasavoir_pdf_downloader.py`):
  - `sanitize_filename`, the regular-expression rewrite that turns every maximal run of
    `\ / : " * ? < > |` into one `_`.
  - The file-name stem derived from a block label: strip, remove every ASCII space, sanitise.
  - The per-block skip / store / fail decision in `download_pdfs`. The output directory is
    modelled as the set of file names it holds.
  - The crawl in `main`: a credential check, then one pass per year from 2024 down to 2014.
- **The chat front end** (`frontend/src/App.tsx`):
  - `setPartialMessage`, which opens, appends or merges bot messages.
  - The user message appended by `handleSendMessage`.
  - The `answer` / `anwser` / `docs` dispatch of `handleReceiveMessage`.
  - The `"data"` filter of `onmessage`.
  - `formatSource`, which keeps the last `/`-segment of a path.
- **The rename script** (`importer/rename_pdfs.py`): the filename pattern with its quirks,
  the new name `bon_a_savoir_{year}_{month}.pdf`, and the decision for every regular file
  of a listing.

Modules:

| file | module | models |
|---|---|---|
| `wrappers.dfy` | `Wrappers` | `Option` and `Result` |
| `seqs.dfy` | `Seqs` | associativity of sequence concatenation, shared by the string proofs |
| `sanitize.dfy` | `Sanitizer` | `sanitize_filename` |
| `pdfname.dfy` | `PdfName` | Python `str.strip`, `replace(" ", "")` and the name derivation |
| `downloader.dfy` | `Downloader` | block decision, page pass, year loop, `main` |
| `chat.dfy` | `Chat` | the message list of `App.tsx` and `formatSource` |
| `rename.dfy` | `Rename` | `rename_pdfs.py` |

The browser is reduced to what it reports about each block:
- the label text;
- the link, already resolved against the page URL;
- the `document.contentType` seen after navigating to that link.

A year page is a function from the year to its blocks. Environment variables are
`Option<string>`, so a missing value and an empty one are both "not present", as in Python.

Facts about the code that the model keeps:
- **Only the ASCII space is removed from a label.** `replace(" ", "")` removes only U+0020,
  so tabs, newlines and no-break spaces survive (`PdfName.DeriveNameKeepsTab`). The label
  `"Bon à Savoir  15  03  2020"` gives `BonàSavoir15032020`: every space goes, and no digit
  is dropped.
- **The guard `if p_tag and link_tag` never skips a block.** `find_element` raises when the
  label or the link is missing, before the guard is reached. The model has no such block
  and promises no skip.
- **An empty year page is fatal.** The page wait at lines 125-129 raises when no block
  appears. The model takes the blocks each page shows and does not model that failure.

## Model

| member | source | states |
|---|---|---|
| Sanitizer.RunEnd | importer/bonasavoir_pdf_downloader.py:21 | the `+` in the class is greedy: the run found at a position ends just before a character that is not forbidden, or at the end of the string |
| Sanitizer.RunEndIsRun | importer/bonasavoir_pdf_downloader.py:21 | every character between a position and the end of its run is one of the nine forbidden characters |
| Sanitizer.Sanitize | importer/bonasavoir_pdf_downloader.py:19-21 | the output holds none of the nine forbidden characters, is never longer than the input, and is empty exactly when the input is |
| Sanitizer.SanitizeKeepsSafe | importer/bonasavoir_pdf_downloader.py:21 | a name without forbidden characters comes back unchanged |
| Sanitizer.SanitizeIdempotent | importer/bonasavoir_pdf_downloader.py:21 | sanitising twice is sanitising once |
| Sanitizer.SanitizeKeepsCharacters | importer/bonasavoir_pdf_downloader.py:21 | every output character is `_` or a character of the input: nothing else is introduced |
| Sanitizer.SanitizeRun | importer/bonasavoir_pdf_downloader.py:21 | a non-empty run made only of forbidden characters becomes exactly one `_` |
| Sanitizer.SanitizeConcat | importer/bonasavoir_pdf_downloader.py:21 | sanitising distributes over concatenation when the cut does not split a forbidden run; with the two rows above this pins the function down |
| Sanitizer.SanitizeScan | importer/bonasavoir_pdf_downloader.py:21 | the left-to-right scan a regex engine performs (find a run, emit `_`, resume after it) computes the same string as the recursive definition |
| PdfName.LeadEnd | importer/bonasavoir_pdf_downloader.py:37 | `strip` drops exactly the leading characters that Python's `isspace` accepts, stopping at the first one it rejects |
| PdfName.TrailStart | importer/bonasavoir_pdf_downloader.py:37 | `strip` drops exactly the trailing whitespace, stopping after the last character that is not whitespace |
| PdfName.Strip | importer/bonasavoir_pdf_downloader.py:37 | the stripped label is never longer than the label, neither starts nor ends with whitespace, and is empty exactly when the label is all whitespace |
| PdfName.StripIsInfix | importer/bonasavoir_pdf_downloader.py:37 | the stripped label is a contiguous piece of the label with only whitespace on either side of it |
| PdfName.RemoveSpaces | importer/bonasavoir_pdf_downloader.py:37 | `replace(" ", "")` leaves no ASCII space and keeps every other character as often as it occurred |
| PdfName.RemoveSpacesConcat | importer/bonasavoir_pdf_downloader.py:37 | space removal acts character by character: it distributes over concatenation |
| PdfName.DeriveName | importer/bonasavoir_pdf_downloader.py:37 | the stem derived from a label contains no space and no forbidden character, and is no longer than the label |
| PdfName.DeriveNameKeepsTab | importer/bonasavoir_pdf_downloader.py:37 | a tab inside a label survives: only the ASCII space is removed |
| PdfName.DeriveNameExample | importer/bonasavoir_pdf_downloader.py:37 | the label `" a b/c "` gives the stem `ab_c`: outer and inner spaces go, and the slash becomes `_` |
| Downloader.Reference | importer/bonasavoir_pdf_downloader.py:36-38 | a block's document is named by the stem of its label text, has no space and no forbidden character, and keeps the block's link and content type |
| Downloader.References | importer/bonasavoir_pdf_downloader.py:26-32 | a page yields one document per block, in page order |
| Downloader.DownloadedFilesSpec | importer/bonasavoir_pdf_downloader.py:51-54 | a file counts as downloaded exactly when some outcome of the pass downloaded a document of that name |
| Downloader.ProcessBlock | importer/bonasavoir_pdf_downloader.py:39-59 | the three-way decision, each case as an if-and-only-if: skip exactly when `name.pdf` exists; download exactly when it does not and the content type is exactly `application/pdf`, adding only that file; otherwise fail and leave the store unchanged |
| Downloader.PassStoresExactlyItsDownloads | importer/bonasavoir_pdf_downloader.py:32-59 | after a page, the store is the old store plus exactly the files the pass downloaded: it only grows |
| Downloader.PassDecidesInOrder | importer/bonasavoir_pdf_downloader.py:32-59 | block `i` is decided against the store as the blocks before it left it |
| Downloader.PassSkipsExisting | importer/bonasavoir_pdf_downloader.py:43-45 | a block whose file existed before the pass is skipped, so its link is never fetched |
| Downloader.PassDownloadsOnlyNewPdfs | importer/bonasavoir_pdf_downloader.py:47-54 | a download happens only for a file absent from the initial store whose link served exactly `application/pdf` |
| Downloader.PassSettles | importer/bonasavoir_pdf_downloader.py:32-59 | after a pass, every block has its file unless its link does not serve a PDF |
| Downloader.PassNeverOverwrites | importer/bonasavoir_pdf_downloader.py:43-54 | two downloads in one pass never share a name, so no file is written twice |
| Downloader.SameNameKeepsFirst | importer/bonasavoir_pdf_downloader.py:39-45 | blocks whose labels give the same name collide: after one is downloaded, every later one is skipped |
| Downloader.SettledGrows | importer/bonasavoir_pdf_downloader.py:43-45 | a larger store keeps settled blocks settled |
| Downloader.SettledPassIsQuiet | importer/bonasavoir_pdf_downloader.py:32-59 | on settled blocks a pass leaves the store unchanged and downloads nothing |
| Downloader.SecondPassDownloadsNothing | importer/bonasavoir_pdf_downloader.py:32-59 | a second pass over the same blocks, on the store the first pass left, stores nothing new |
| Downloader.Years | importer/bonasavoir_pdf_downloader.py:121-133 | the counter runs from the newest year down by one: position `i` holds `newest - i`, and a year is listed exactly when it lies in the range |
| Downloader.CrawlYearsAreElevenDescending | importer/bonasavoir_pdf_downloader.py:121-133 | the loop visits 2024 down to 2014: eleven years, strictly descending, each once |
| Downloader.CrawlYears | importer/bonasavoir_pdf_downloader.py:121-133 | one report per visited year, labelled with that year, with one outcome per block of its page; the store only grows |
| Downloader.CrawlSettles | importer/bonasavoir_pdf_downloader.py:121-133 | after a crawl, every visited page is settled against the final store |
| Downloader.CrawlSkipsExisting | importer/bonasavoir_pdf_downloader.py:37-45 | in whichever year lists it, a block whose `stem.pdf` existed before the crawl is skipped and never fetched |
| Downloader.Crawl | importer/bonasavoir_pdf_downloader.py:66-133 | the run fails exactly when a credential is absent or empty; otherwise it reports eleven years, position `i` holding `2024 - i`, and the store only grows |
| Downloader.SettledCrawlIsQuiet | importer/bonasavoir_pdf_downloader.py:121-133 | when every visited page is settled, a crawl leaves the store unchanged and downloads nothing |
| Downloader.SecondCrawlDownloadsNothing | importer/bonasavoir_pdf_downloader.py:62-133 | running `main` again against the same archive, on the directory the first run left, downloads nothing |
| Downloader.CrawlOneYear | importer/bonasavoir_pdf_downloader.py:122-133 | crawling from a year down is one pass on that year, then the crawl from the year below |
| Downloader.RunCrawl | importer/bonasavoir_pdf_downloader.py:121-133 | the `while current_year >= 2014` loop with its decrement computes exactly the crawl |
| Chat.SetPartialMessage | frontend/src/App.tsx:16-38 | all three cases. An empty list gives one bot message with the chunk and the sources. After a user message, one bot message is appended and everything before it is kept. A trailing bot message keeps its position and gets `text + chunk`; its sources become old ++ new when old are present, new otherwise. In every case the result ends with a bot message |
| Chat.SendMessage | frontend/src/App.tsx:58 | sending appends one user message without sources and keeps every earlier message |
| Chat.HandleReceiveMessage | frontend/src/App.tsx:42-53 | an event with no answer, anwser or docs changes nothing; any other event leaves a bot message last |
| Chat.OnMessage | frontend/src/App.tsx:71-76 | only events named `"data"` reach the handler; any other event leaves the list unchanged |
| Chat.AnswerTakesPrecedence | frontend/src/App.tsx:45-47 | with both `answer` and `anwser` present, `anwser` is ignored |
| Chat.AnwserIsFallback | frontend/src/App.tsx:45-47 | without `answer`, the content of `anwser` is merged exactly as an answer with the same content would be; right after a question it opens a bot message holding that content and no sources |
| Chat.AnswerThenDocs | frontend/src/App.tsx:42-53 | an event with both an answer and `docs`, right after a question, leaves exactly one new bot message, holding the answer and those sources |
| Chat.DocsExtendSources | frontend/src/App.tsx:50-52 | a `docs` event on a trailing bot message keeps its text and appends the sources |
| Chat.SendPreservesWellFormed | frontend/src/App.tsx:58 | sending keeps the list well formed: no two adjacent bot messages, and sources present exactly on bot messages |
| Chat.SetPartialPreservesWellFormed | frontend/src/App.tsx:16-38 | `setPartialMessage` keeps the list well formed |
| Chat.ReceivePreservesWellFormed | frontend/src/App.tsx:42-53 | handling an event keeps the list well formed |
| Chat.ChunksExtendLastMessage | frontend/src/App.tsx:45-47 | a run of answer chunks on a trailing bot message appends their concatenation to its text and keeps every other message |
| Chat.StreamedReply | frontend/src/App.tsx:55-80 | after a question, the answer chunks and then a `docs` event add exactly one bot message, holding the joined chunks and the sources |
| Chat.ReceiveAllAppend | frontend/src/App.tsx:71-76 | handling two runs of events in turn is handling their concatenation |
| Chat.SplitPiecesSlashFree | frontend/src/App.tsx:91 | no piece of `split("/")` contains a slash |
| Chat.JoinSplit | frontend/src/App.tsx:91 | joining the pieces of `split("/")` with `/` gives the string back |
| Chat.SplitJoin | frontend/src/App.tsx:91 | splitting slash-free pieces joined by `/` gives those pieces back, empty ones included |
| Chat.SplitLastIsSuffix | frontend/src/App.tsx:91 | the last piece of `split("/")` is a tail of the string, preceded by a slash unless it is the whole string |
| Chat.FormatSource | frontend/src/App.tsx:90-92 | the shown source has no slash; it is a tail of the path, preceded by a slash unless it is the whole path |
| Chat.FormatSourceKeepsPlainName | frontend/src/App.tsx:90-92 | a path without a slash is shown whole |
| Chat.FormatSourceOfPath | frontend/src/App.tsx:90-92 | `dir/name` is shown as `name`, whatever `dir` is |
| Rename.MatchName | importer/rename_pdfs.py:10-15 | a match yields a two-digit month and a four-digit year, and the name starts with the pattern's literal head |
| Rename.MatchOldName | importer/rename_pdfs.py:10 | every name of the pattern's shape matches, and its groups come back as the digits it was built from |
| Rename.MatchedNameIsOldName | importer/rename_pdfs.py:10 | conversely, every matched name has that shape: head, month, `_`, year, one character, `pdf`, then anything |
| Rename.MatchAnyDot | importer/rename_pdfs.py:10 | the unescaped `.` accepts any character in place of the dot |
| Rename.MatchIgnoresTail | importer/rename_pdfs.py:15 | `re.match` anchors only at the start: appending any text to a name of at least 25 characters does not change whether it matches nor what the groups are, so `….pdf.bak` still matches |
| Rename.NoMatchNewlineDot | importer/rename_pdfs.py:10 | the `.` does not match a newline |
| Rename.NoMatchProperAccent | importer/rename_pdfs.py:10 | a name spelt with a real `à` does not match, because the pattern holds the mis-decoded `Ã ` |
| Rename.NewName | importer/rename_pdfs.py:22 | the new name starts with `bon_a_savoir_`, ends with `.pdf`, and has the length of its parts |
| Rename.NewNameLength | importer/rename_pdfs.py:22 | every new name of a matched file has 24 characters |
| Rename.NewNameInjective | importer/rename_pdfs.py:18-22 | the digits are kept verbatim, so distinct (month, year) pairs give distinct new names |
| Rename.NewNameNeverMatches | importer/rename_pdfs.py:22 | a new name never matches the pattern again |
| Rename.Decide | importer/rename_pdfs.py:15-31 | a file is renamed exactly when its name matches, to `bon_a_savoir_{year}_{month}.pdf`; otherwise it is skipped |
| Rename.FileCount | importer/rename_pdfs.py:13-14 | the number of regular files never exceeds the length of the listing |
| Rename.RenamePlan | importer/rename_pdfs.py:13-31 | exactly one action per regular file: the plan is as long as the number of regular files, every action is the decision for a regular file of the listing, and every regular file gets its decision |
| Rename.RenamePlanInOrder | importer/rename_pdfs.py:13-31 | actions come in listing order: the file at position `i` gets the action whose index is the number of regular files listed before it |
| Rename.AfterRename | importer/rename_pdfs.py:14-28 | renaming keeps the listing's length and which entries are regular files; a file whose name matches takes the new name its decision names, and every other entry is unchanged |
| Rename.SecondRunRenamesNothing | importer/rename_pdfs.py:13-31 | running the script again on the renamed listing renames nothing |

## Left out

- Selenium is not modelled: the login form, credential entry, the `WebDriverWait` waits and their timeouts (an empty year page raises), the `debugging` flag and `driver.quit`. They are browser I/O. Each page is a parameter giving the blocks it shows.
- `urljoin` is not modelled: resolving a link against the page URL is delegated to urllib, and resolved links are opaque strings.
- The bytes written (`page_source.encode("utf-8")`) are not modelled. Only whether a file name enters the store is.
- `find_element` raising on a block without a label or a link is not modelled, because it is a browser exception, not a decision of the program.
- The `print` logging is left out. It is output only.
- `app/rag_chain.py` and `importer/load_and_process.py` are not part of this model. They only compose LangChain, OpenAI and pgvector calls.
- React rendering, `fetchEventSource`, `JSON.parse`, `encodeURI` and the `trim()` of the input box are left out. They are UI and network. A parsed event is a record of optional `answer` and `anwser` contents and `docs` sources.
- The state updates of `setMessages` are modelled as applied in order. React's batching is not modelled.
- The rename script's `iterdir`, `rename` and collisions with existing targets are not modelled. They are filesystem effects. A listing is a sequence of (name, is-file) entries.
- Rename.MatchName: `\d` is modelled as ASCII only; the model accepts only ASCII `0`-`9`. Python's `\d` on `str` also matches every other Unicode decimal digit, so the model matches fewer names than the script does.
- Downloader.DownloadPdfs: its own contract states only the length of the outcomes and that the store grows. Its full behaviour is stated by the `Pass…` lemmas listed above.
- Downloader.DownloadPdfs: assumes every block's label and link can still be read after an earlier block of the same page was fetched. In Selenium, `driver.get(pdf_url)` (line 47) leaves the year page, so the next `block.find_element` (lines 33-34) raises a stale-element error that `main` does not catch (it has only `try`/`finally`, lines 86-138). A page with two new PDFs therefore aborts the crawl after the first fetch, where the model decides every block. `PassSettles`, `SecondPassDownloadsNothing`, `CrawlSettles` and `SecondCrawlDownloadsNothing` hold under this assumption.
