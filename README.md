# naver-term-crawler: the text and record logic of `index.py`, in Dafny

`index.py` scrapes the traditional-liquor entries of the Naver terms
encyclopedia. For each entry it builds one dictionary (a "doc"):

- the rows of the detail page's profile table, keyed by their Korean labels
  translated to English;
- the citation (`source`), cut out of an inline script;
- the image URL (`image`), decoded from the thumbnail link.

This project models the part of that program that does not touch the network
or the HTML parser:

- `translate_property_name`: the fixed 12-entry label table. A label outside
  the table passes through unchanged.
- `normalize_string`: strip, delete newlines, collapse whitespace runs.
- `get_term_source`: the chain of five splits, the `</a>` removal, and the
  final normalisation.
- `get_doc`: the row loop, the ingredients split on `", "`, the
  last-row-wins overwriting, the image-URL fallback to `""`, and the final
  `source`/`image` writes.

The page lookups `get_doc` performs are given to the model as plain inputs:
the script text, the thumbnail href if any, and the (th, td) text of each row.
`urllib.parse.unquote` is a function parameter.

Files:

- `wrappers.dfy`: the `Option` type.
- `py_str.dfy` (module `PyStr`): the Python `str` operations the program
  uses, on `seq<char>`. These are `strip`, `sep.join`, `split(sep)`,
  `replace` and `split()`. Each one has lemmas stating what it computes.
  A helper search `Find` (the leftmost occurrence of a pattern) sits behind
  `split(sep)` and `replace`. The program itself never calls `find`.
  Whitespace is the full set Python's `str.isspace` accepts. That set is
  tab to carriage return, U+001C to U+001F, space, U+0085, U+00A0, U+1680,
  U+2000 to U+200A, U+2028, U+2029, U+202F, U+205F and U+3000.
- `crawler.dfy` (module `Crawler`): the functions of `index.py`, the `GetDoc`
  method and the properties proved about them.

What the code does and does not do:

- It keeps labels outside the table under their own names. It does not
  reject them.
- Each English key comes from exactly one Korean label.
- It performs no category normalisation, geocoding, field whitelist or
  field-count check.

## Model

| member | source | states |
|---|---|---|
| Crawler.TranslateTable | index.py:11-18 | each of the twelve Korean labels translates to its English key (`상품명`→`name` … `홈페이지`→`homepage`) |
| Crawler.TranslateUnknown | index.py:17-20 | a label outside the table is returned unchanged rather than rejected |
| Crawler.TranslateTableInjective | index.py:11-15 | two different table labels never translate to the same key |
| Crawler.NormalizeIsNormalized | index.py:29-30 | the result of `normalize_string` is in normal form: only single spaces as whitespace, none at either end, no newline |
| Crawler.NormalizeFixedPoint | index.py:29-30 | `normalize_string(s) == s` exactly when `s` is in normal form (both directions) |
| Crawler.NormalizeIdempotent | index.py:29-30 | normalising twice is the same as normalising once |
| Crawler.NormalizeKeepsText | index.py:29-30 | normalising deletes or reshapes whitespace only: the non-whitespace characters are kept, in order |
| Crawler.NormalizeEmpty | index.py:29-30 | the result is empty exactly when the text is empty or all whitespace |
| Crawler.NewlineGlues | index.py:30 | a newline between two words is deleted before the split, so the words are glued with no space |
| Crawler.SpacedNewlineSeparates | index.py:30 | a newline with spaces around it leaves exactly one space between the words |
| Crawler.JoinSplitNormalized | index.py:30 | `' '.join(s.split())` gives back a string already in normal form |
| Crawler.JoinWordsNormalized | index.py:30 | whitespace-free words joined with single spaces are in normal form |
| Crawler.Before | index.py:34-35 | `s.split(m)[0]` is the prefix of `s` up to the first `m`: no `m` starts inside it, an `m` starts right after it unless it is all of `s`, and it is all of `s` when `m` is absent |
| Crawler.Between | index.py:34-35 | `s.split(m)[1]` exists exactly when `m` occurs, and is the text after the first `m` up to the next one |
| Crawler.TermSourceFails | index.py:33-35 | extraction fails (the source raises IndexError) exactly when `termSource`, then `</strong>`, then `">` is missing from its slice; the two `[0]` cuts never fail |
| Crawler.TermSourceIsFixedPoint | index.py:33-35 | an extracted citation is in normal form, so normalising it again changes nothing |
| Crawler.ImageUrl | index.py:46-52 | the image is `unquote` of the text between the first and second `imageUrl=` of the href; it is `""` when the anchor or href is missing or holds no `imageUrl=` |
| Crawler.RowValue | index.py:57-60 | a row's content is a list exactly when its normalised label is `원재료`; the list is non-empty, no item holds `", "`, and the items join back with `", "` to the normalised content; otherwise the content is the normalised td text |
| Crawler.IngredientsAreTheSplit | index.py:59-60 | any non-empty list with no `", "` inside its items that joins back to the content is the ingredients value, so RowValue's contract fixes the list as `content.split(", ")` |
| Crawler.StoreKeys | index.py:61 | storing entries one after another defines exactly the keys of the entries |
| Crawler.StoreLastWins | index.py:61 | a key holds the value of its last entry |
| Crawler.RowsDocKeys | index.py:56-61 | every row contributes its key and no other key appears: no row is dropped or rejected |
| Crawler.RowsDocLastWins | index.py:56-61 | when two rows share a key, the later row overwrites the earlier one |
| Crawler.AssembleFields | index.py:61-64 | `source` and `image` overwrite any row with those keys; every other key comes from the rows with the rows' value |
| Crawler.GetDoc | index.py:38-66 | returns no document exactly when the citation cannot be extracted; otherwise returns the rows stored in order, then `source`, then `image` |
| PyStr.StripLeftSpec | index.py:30 | `lstrip` removes the leading whitespace and only that, leaving a suffix that starts with non-whitespace |
| PyStr.StripRightSpec | index.py:30 | `rstrip` removes the trailing whitespace and only that, leaving a prefix that ends with non-whitespace |
| PyStr.StripTrimmed | index.py:30 | a string with no whitespace at either end is its own `strip()` |
| PyStr.StripKeepsText | index.py:30 | `strip()` removes whitespace only |
| PyStr.FindSpec | index.py:34-35 | the search behind `split(sep)` and `replace` reports the leftmost occurrence, and fails exactly when the pattern does not occur |
| PyStr.SplitOnSpec | index.py:34-35 | `split(sep)` gives one piece exactly when `sep` is absent; no piece contains `sep`; joining the pieces with `sep` gives the string back |
| PyStr.SplitOnFirstCut | index.py:34-35 | `split(sep)` cuts at the leftmost `sep`: no `sep` starts inside the first piece, a `sep` follows it when there are more pieces, and the remaining pieces are the split of the text after that `sep` |
| PyStr.SplitOnUnique | index.py:60 | for a separator that cannot overlap itself, `split(sep)` is the only list of `sep`-free pieces that joins back to the string |
| PyStr.ReplaceIsJoinOfSplit | index.py:30 | `s.replace(p, q)` is `q.join(s.split(p))` |
| PyStr.ReplaceAbsent | index.py:35 | replacing a pattern that does not occur changes nothing |
| PyStr.ReplaceCharRemovesIt | index.py:30 | `replace("\n", "")` leaves no newline behind |
| PyStr.ReplaceWsKeepsText | index.py:30 | deleting a whitespace character keeps every other non-whitespace character, in order |
| PyStr.WordSpec | index.py:30 | the leading word is a whitespace-free prefix ending at whitespace or at the end |
| PyStr.SplitWsWords | index.py:30 | every word `split()` returns is non-empty and whitespace-free |
| PyStr.SplitWsSkipsGap | index.py:30 | `split()` ignores leading whitespace |
| PyStr.SplitWsGap | index.py:30 | `split()` of a word, a whitespace gap and more text starts with that word |
| PyStr.SplitWsWord | index.py:30 | `split()` of one whitespace-free word is that word alone |
| PyStr.JoinSplitWsKeepsText | index.py:30 | `' '.join(s.split())` keeps the non-whitespace text of `s` |

## Left out

- `get_soup` (index.py:23-26): the HTTP request and HTML parsing are I/O.
- The CSS selector lookups (index.py:42-43, 48-49, 54-55, 57-58): they are
  given to `GetDoc` as inputs. These inputs are the script's text, the
  anchor's href as an `Option`, and each row's th and td text.
- An AttributeError in `get_doc` is not modelled. Python raises one when the
  script node is missing, when its `.string` is None, or when a row has no th
  or td. The model's inputs are already strings.
- `get_docs` (index.py:69-84) is not modelled: it is network iteration over
  list pages 1 to 37, with one `get_doc` per title. It appends the documents
  in page order, then in title order within a page, and prints each title.
- `save_as_json` (index.py:87-89): file output and JSON encoding.
- `urllib.parse.unquote` is a function parameter of `ImageUrl` and `GetDoc`.
  Percent-decoding itself is not modelled.
- A failed citation extraction is an `Option.None` result. The Python
  function raises IndexError instead.
- Key order: `Doc` is an unordered map. A Python dict keeps keys in
  first-insertion order, and overwriting a key keeps its place. That
  includes a row whose label translates to `source` or `image`.
  `json.dumps` (index.py:89) writes the keys in that order. The model proves
  which keys hold which values, not the order in which they would be
  written.
