# SUDOC book metadata lookup, modelled in Dafny

The repository looks up a printed book in the SUDOC union catalogue in two
HTTP steps. First, the `isbn2ppn` service maps an ISBN to a PPN, the
catalogue's record number. Second, the record's RDF document gives the title,
author, publisher and date. Two scripts hold the same pipeline:

- `app_book_infos.py` shows the result in a Tkinter dialog (`on_search`).
- `sudoc_script.py` prints it on the console.

The model keeps the pipeline and abstracts what happens around it:

- An HTTP call is a function parameter `get: string -> Transport<Doc>`. Given
  the URL, it says what `requests.get` did: raise `Timeout`, raise another
  exception, or answer with a status and a body. The body is already passed
  through `ET.fromstring`, so it is either `Malformed` or a parsed document.
- A parsed document is a record holding the results of the `tree.find(...)`
  calls the scripts make. Each result is an optional element with an optional `.text`.
- A Python call either returns a value or raises (`Outcome`). That matters for
  the resolver, which catches nothing. The fetcher turns every failure into `None`.
- The `infos` dictionary is the `Record` datatype with its four fields
  `titre`, `auteur`, `editeur` and `date`. A record therefore always has all
  four keys. The title is always a string. The other three fields hold raw
  `.text`, which can be Python `None`. `Show` renders such a `None` as the
  f-string does: `"None"`.

Modules:

- `Wrappers`: `Option`.
- `PyStr`: the Python string semantics used. These are `str.isspace`,
  `lstrip`/`rstrip`/`strip`, `split(sep)[0]`, the truthiness of a `str` or
  `None`, and f-string rendering.
- `Sudoc`: the shared data model, the sentinels `Inconnu`/`Inconnue` and the
  two "nothing found" messages.
- `BookInfos`: `app_book_infos.py`.
- `SudocScript`: `sudoc_script.py`. It has its own copies of the resolver and
  the fetcher, as the file does. Lemmas prove these copies equal to
  `BookInfos`'s, and prove that both front ends report the same outcome.

Two behaviours of the code worth stating plainly:

- A record-service timeout is not an outcome of its own: a timeout, any other
  exception, a status other than 200 and a parse failure all return `None`,
  and only the diagnostic `print` differs. The dialog and the console show
  the same "Aucune métadonnée trouvée pour ce PPN." for all of them.
- The sentinels are `Inconnu` and, for the date, `Inconnue`; for author,
  publisher and date a present element without text gives `None`, not the
  sentinel. Only the title guards against missing text.

## Model

| member | source | states |
|---|---|---|
| PyStr.IsSpace | app_book_infos.py:39 | the characters `strip()` removes: exactly Python's `str.isspace` set (U+0009-U+000D, U+001C-U+0020, U+0085, U+00A0, U+1680, U+2000-U+200A, U+2028, U+2029, U+202F, U+205F, U+3000) |
| PyStr.IsSpaceClasses | app_book_infos.py:39 | space, tab, newline and carriage return are whitespace; `/`, digits, ASCII letters and every character above U+3000 are not, so `strip()` never removes them |
| PyStr.Truthy | app_book_infos.py:87 | defines Python truthiness of a `str` or `None`, as tested by `if ppn:`: present and non-empty |
| PyStr.Show | app_book_infos.py:92 | defines how an f-string renders a `str` or `None`: a present string as itself, `None` as the text `None` |
| PyStr.LStrip | app_book_infos.py:39 | `lstrip()` removes a whitespace prefix and stops at the first character that is not whitespace |
| PyStr.RStrip | app_book_infos.py:39 | `rstrip()` removes a whitespace suffix and stops after the last character that is not whitespace |
| PyStr.Strip | app_book_infos.py:39 | `strip()` leaves no whitespace at either end and keeps only characters of its argument |
| PyStr.StripIsTrim | app_book_infos.py:39 | `strip()` returns a trim of its argument: a slice with only whitespace cut off each end and none left at either end |
| PyStr.LStripAt | app_book_infos.py:39 | if the first non-whitespace character is at index i, `lstrip()` keeps exactly `s[i..]` |
| PyStr.RStripAt | app_book_infos.py:39 | if the last non-whitespace character is just before index j, `rstrip()` keeps exactly `s[..j]` |
| PyStr.StripAllSpace | app_book_infos.py:39 | a string made only of whitespace strips to the empty string |
| PyStr.StripUnique | app_book_infos.py:39 | the trim is unique: every slice with whitespace-only margins and no edge whitespace equals `strip()` |
| PyStr.StripKeeps | app_book_infos.py:39 | `strip()` is the identity on strings without edge whitespace |
| PyStr.SplitFirst | app_book_infos.py:39 | `split(sep)[0]` is a prefix without `sep`, and it ends at the end of the string or just before the first `sep` |
| PyStr.SplitFirstUnique | app_book_infos.py:39 | that prefix is unique: any prefix with those properties is `split(sep)[0]` |
| PyStr.SplitFirstKeeps | app_book_infos.py:39 | without `sep`, `split(sep)[0]` is the whole string |
| BookInfos.IsbnUrl | app_book_infos.py:10 | the resolver URL is `https://www.sudoc.fr/services/isbn2ppn/` followed by the ISBN verbatim, so the ISBN can be read back from it |
| BookInfos.RdfUrl | app_book_infos.py:27 | the record URL is `http://www.sudoc.fr/`, then the PPN verbatim, then `.rdf` |
| BookInfos.ResolvePpn | app_book_infos.py:8-22 | a failed request raises; a status other than 200 gives `None` whatever the body; a 200 body that does not parse raises; otherwise the result is `None` without a `result/ppn` element and that element's text with one; a returned PPN is always such a text |
| BookInfos.CleanTitle | app_book_infos.py:39 | the cleaned title contains no `/` and has no whitespace at either end |
| BookInfos.TitleIsTrimmedHead | app_book_infos.py:39 | the title is the text before the first `/`, with only whitespace cut off each end |
| BookInfos.TitleIdempotent | app_book_infos.py:39 | cleaning a cleaned title changes nothing |
| BookInfos.TitleWithoutSlash | app_book_infos.py:39 | without a `/`, the title is the whole text stripped |
| BookInfos.TitleDropsSubtitle | app_book_infos.py:39 | for any whitespace around a slash-free title and anything after the `/`, the result is the title proper |
| BookInfos.TitleBovary | app_book_infos.py:39 | `"Madame Bovary / Gustave Flaubert"` gives `"Madame Bovary"` |
| BookInfos.TitleMiserables | app_book_infos.py:39 | `"Les Misérables / roman"` gives `"Les Misérables"` |
| BookInfos.ExtractRecord | app_book_infos.py:36-50 | the title is cleaned, or `Inconnu` when its element or its text is missing; author and publisher are `Inconnu` and the date `Inconnue` when their element is missing, and otherwise are the element's raw text |
| BookInfos.RawFieldNoneIffTextless | app_book_infos.py:47-49 | author, publisher or date is `None` exactly when its element is present without text |
| BookInfos.FieldsIndependent | app_book_infos.py:39-49 | each field depends only on its own element |
| BookInfos.MissingPublisher | app_book_infos.py:48 | removing the publisher element sets the publisher to `Inconnu` and leaves title, author and date unchanged |
| BookInfos.FetchRecord | app_book_infos.py:25-60 | a record comes back exactly when the answer has status 200 and parses, and it is then the full extracted record; a timeout, another exception, another status or a parse failure gives `None` |
| BookInfos.ResultText | app_book_infos.py:92 | the dialog text for a record starts with the `Titre: ` line |
| BookInfos.OutcomeTextsDistinct | app_book_infos.py:92-96 | the record text, the "no PPN" text and the "no record" text are pairwise distinct |
| BookInfos.OnSearch | app_book_infos.py:82-96 | a resolver exception escapes; "Aucun PPN trouvé pour cet ISBN." exactly when the PPN is `None` or empty; "Aucune métadonnée trouvée pour ce PPN." exactly when the PPN is truthy and no record comes back; otherwise the record's text |
| BookInfos.SearchWithoutPpnSkipsRecord | app_book_infos.py:86-89 | without a truthy PPN the outcome is "no PPN" whatever the record service would answer |
| BookInfos.SearchReadsOnlyRecordUrl | app_book_infos.py:86-89 | the outcome depends on the record service only through its answer at the resolved PPN's record URL |
| BookInfos.SearchResolverNotFound | app_book_infos.py:14-15 | a resolver answer other than 200 gives "no PPN" |
| BookInfos.SearchRecordUnavailable | app_book_infos.py:30-60 | with a truthy PPN, a timeout, another failure, another status or a bad body at the record service gives "no record" |
| BookInfos.SearchExample | app_book_infos.py:82-96 | ISBN `9782070409190` resolved to `027630043` with the Bovary record gives title "Madame Bovary", author "Gustave Flaubert", publisher "Gallimard", date "1972" |
| SudocScript.IsbnUrl | sudoc_script.py:8 | the resolver URL is the fixed prefix followed by the ISBN verbatim |
| SudocScript.RdfUrl | sudoc_script.py:25 | the record URL is the fixed prefix, the PPN verbatim and `.rdf` |
| SudocScript.ResolvePpn | sudoc_script.py:6-20 | a failed request or a parse failure raises; another status or a missing `result/ppn` gives `None`; otherwise the element's text |
| SudocScript.ExtractRecord | sudoc_script.py:34-48 | the title has no `/` and no edge whitespace, and is `Inconnu` without its element or text; the author, publisher and date sentinels each apply only when that field's element is missing |
| SudocScript.ExtractAgrees | sudoc_script.py:34-48 | the script's extraction equals the dialog's on every parsed document, so its title is the same split-and-strip of the title text |
| SudocScript.FetchRecord | sudoc_script.py:23-59 | a complete record exactly for a parsed 200 answer; `None` for a timeout, any other failure, another status or a bad body |
| SudocScript.RecordLines | sudoc_script.py:71-74 | four lines for a record, the title line first |
| SudocScript.ScriptOutput | sudoc_script.py:65-78 | a resolver exception escapes; exactly the "no PPN" line when the PPN is not truthy; otherwise "PPN trouvé : ..." comes first, followed by the "no record" line exactly when no record comes back, or else by the four record lines |
| SudocScript.UrlsAgree | sudoc_script.py:8-25 | both files build the same two URLs |
| SudocScript.ResolveAgrees | sudoc_script.py:6-20 | this resolver equals the one in app_book_infos.py on every ISBN and every service answer |
| SudocScript.FetchAgrees | sudoc_script.py:23-59 | this fetcher equals the one in app_book_infos.py on every PPN and every service answer |
| SudocScript.ScriptMatchesSearch | sudoc_script.py:65-78 | the console and the dialog report the same outcome (or error) for every ISBN and every pair of service answers; when a record comes back, the console prints its four lines and the dialog shows its text, for the same record |
| SudocScript.ScriptResolverNotFound | sudoc_script.py:12-13 | a resolver answer other than 200 prints only "Aucun PPN trouvé pour cet ISBN." |
| SudocScript.ScriptWithoutPpnSkipsRecord | sudoc_script.py:67-69 | without a truthy PPN the record service is never consulted |

## Left out

- The Tkinter window, label, entry, button, icon, fonts, `messagebox.showinfo` and `mainloop` (app_book_infos.py:63-105). They are presentation only. `OnSearch` gives the text the dialog would show.
- `input()` and the `print` calls (sudoc_script.py:63, 68-78). `ScriptOutput` gives the lines printed after the prompt, apart from the fetcher's diagnostic line.
- The diagnostic `print` in both fetchers' exception handlers. It is console output only, and it is the only thing that tells a timeout from other failures.
- `requests.get` and the 30-second timeout. The network is a function parameter, and there is no modelled time. The resolver has no timeout and can block forever. That cannot be expressed without time, so the model only covers the resolver's calls that return or raise.
- `ET.fromstring` and the namespace-qualified `find` with its `.//` search. The XML library is foreign code. Its results are inputs: a body that parses or not, and an optional first matching element for each path.
- How an uncaught resolver exception is reported (the Tk callback's error report, the script's traceback). The model says only which exception escapes: a request error or a parse error.
- The exception classes. Everything raised by `requests` that is not a timeout is one case, `RequestFailure`.
- ISBN validation. The code performs none, and the model passes the ISBN through verbatim.
- BookInfos.ResultText: its contract states only that the text opens with the `Titre: ` label. That is what keeps a record apart from the two messages. The rest of the layout (the Auteur, Éditeur and Date lines, in that order) is given by its body, not by a contract.
- SudocScript.RecordLines: its contract states only that there are four lines and that the title line comes first. The labels of the other three lines are given by its body.
