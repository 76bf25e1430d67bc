# article_webscrapper in Dafny

A verified model of the logic inside `article_webscrapper.py`, a script that
reads the article listing of a news site, keeps the links of the articles of
one category ("News"), fetches each article's title and body, and writes every
body to a text file named after its title.

Three parts of the script are modelled, one module each:

- `Sanitizer` (`sanitizer.dfy`): the conversion of an article title into a
  filename inside `save_to_file`. Every character of Python's
  `string.punctuation` is dropped, the rest is split on runs of whitespace as
  Python's argument-less `str.split()` does, the words are joined with `_`
  and `.txt` is appended. `StripPunctuation`, `Split`, `Join` and `Sanitize`
  are functions. `IsSpace` is the fixed set of characters for which Python's
  `str.isspace()` holds. That set is ASCII space, tab, newline, vertical tab,
  form feed and carriage return. It also holds the ASCII separators
  0x1C-0x1F and the Unicode whitespace characters, since `str.split()` splits
  on those too.
- `Listing` (`listing.dfy`): the list comprehension of
  `get_links_to_articles_of_appropriate_type`. The parsed page is replaced by
  the sequence of its `<article>` nodes. Each node is reduced to
  `ArticleNode(category, href)`: the text of its `span.c-meta__type` and the
  `href` of its first link.
- `Persister` (`persister.dfy`): the loop of `save_to_file`. The working
  directory is a `FileStore` object whose `files` field maps filenames to
  contents. `WriteFile` models `open(name, 'w')` followed by `write`: the
  entry is replaced whole. `SaveToFile` is a method with a `while` loop.
  Its invariants tie the names returned so far and the store to the
  specification functions `SavedNames` and `Persist`. The lemmas beside them
  say what the directory holds afterwards.

The code does no case folding, so titles that differ only in case get
different names (`"A"` and `"a"` give `A.txt` and `a.txt`). Such titles
collide only on a case-insensitive file system, which the map does not model.
`SanitizeCollidesIff` states exactly when two titles collide: when they have
the same words once punctuation is removed.

## Model

| member | source | states |
|---|---|---|
| `Sanitizer.IsPunct` | article_webscrapper.py:3 | no ensures of its own: membership in `string.punctuation` (the constant `Punctuation`) as four ASCII ranges; `PunctuationTable` proves the two agree |
| `Sanitizer.IsSpace` | article_webscrapper.py:86 | no ensures of its own: the characters for which `str.isspace()` holds, on which `str.split()` splits; `SplitAroundSpace` proves each of them separates words |
| `Sanitizer.PunctuationTable` | article_webscrapper.py:3 | `IsPunct` holds of exactly the 32 characters of `string.punctuation` |
| `Sanitizer.StripPunctuation` | article_webscrapper.py:86 | the filtered title holds no punctuation character and is no longer than the title |
| `Sanitizer.StripMembers` | article_webscrapper.py:86 | a character appears in the filtered title exactly when it appears in the title and is not punctuation |
| `Sanitizer.StripAppend` | article_webscrapper.py:86 | filtering distributes over concatenation, so the kept characters stay in their order |
| `Sanitizer.StripIdentity` | article_webscrapper.py:86 | a title without punctuation is left unchanged |
| `Sanitizer.StripIdempotent` | article_webscrapper.py:86 | removing punctuation twice is removing it once |
| `Sanitizer.Split` | article_webscrapper.py:86 | every word `str.split()` returns is non-empty, holds no whitespace, and is made of characters of the input |
| `Sanitizer.SplitAroundSpace` | article_webscrapper.py:86 | any whitespace character separates: the words of `a + c + b` are the words of `a` followed by the words of `b` |
| `Sanitizer.SplitLeadingSpace` | article_webscrapper.py:86 | leading whitespace of any kind yields no word |
| `Sanitizer.SplitWord` | article_webscrapper.py:86 | a single word splits into itself |
| `Sanitizer.SplitWordThenSpace` | article_webscrapper.py:86 | a word followed by any whitespace character yields that word and then the words of the rest |
| `Sanitizer.SplitJoin` | article_webscrapper.py:86 | splitting undoes joining words with a whitespace character: `sep.join(ws).split() == ws` |
| `Sanitizer.SplitEmptyIff` | article_webscrapper.py:86 | a string yields no words exactly when it is all whitespace |
| `Sanitizer.TitleWords` | article_webscrapper.py:86 | no ensures of its own: the list line 86 builds, the punctuation-free title split on whitespace; `TitleWordsAreClean`, `SanitizeCollidesIff` and `StemSplitsIntoWords` state its properties |
| `Sanitizer.TitleWordsAreClean` | article_webscrapper.py:86 | every word of a filtered title is non-empty and free of punctuation and whitespace |
| `Sanitizer.Join` | article_webscrapper.py:87 | no ensures of its own: `sep.join(words)`; `SplitJoin` and `SplitOnJoin` prove splitting undoes it, `JoinIsStem` gives the shape of `'_'.join` of clean words |
| `Sanitizer.JoinIsStem` | article_webscrapper.py:87 | joining clean words with `_` gives a string whose only punctuation is `_`, never at either end and never doubled |
| `Sanitizer.SplitOnJoin` | article_webscrapper.py:87 | splitting on a separator undoes joining with it, for a non-empty list of pieces without that separator (`'_'.join` and `split('_')` in the script's case) |
| `Sanitizer.Sanitize` | article_webscrapper.py:86-87 | no ensures of its own: the filename of a title; `SanitizeShape`, `SanitizeParts`, `SanitizeCollidesIff`, `SanitizeBareIff`, `SanitizeAnySpace` and the examples below state its properties |
| `Sanitizer.Stem` | article_webscrapper.py:87 | no ensures of its own: the stem `'_'.join(words)` of line 87, the filename without `.txt`; `StemShape`, `SanitizeParts` and `StemSplitsIntoWords` state its properties |
| `Sanitizer.StemShape` | article_webscrapper.py:86-87 | the stem has that shape, and is empty exactly when the title has no words |
| `Sanitizer.SanitizeShape` | article_webscrapper.py:86-87 | every filename ends with `.txt`; before it, no whitespace, no punctuation but `_`, and each `_` lies between two other characters |
| `Sanitizer.SanitizeParts` | article_webscrapper.py:87 | the filename minus its last four characters is the stem, and those four are `.txt` |
| `Sanitizer.StemSplitsIntoWords` | article_webscrapper.py:86-87 | underscores are only separators: for a title with at least one word, splitting the stem on `_` gives back the title's words (a title with none has the empty stem, which `split('_')` turns into `['']`) |
| `Sanitizer.SanitizeCollidesIff` | article_webscrapper.py:86-87 | two titles get the same filename if and only if they have the same words once punctuation is removed |
| `Sanitizer.SanitizeIgnoresPunctuation` | article_webscrapper.py:86 | a title and its punctuation-free form get the same filename |
| `Sanitizer.SanitizeBareIff` | article_webscrapper.py:86-87 | the filename is exactly `.txt` if and only if the title is made only of punctuation and whitespace (the empty title included) |
| `Sanitizer.SanitizeSpacedWords` | article_webscrapper.py:86-87 | clean words separated by one whitespace character each become those words joined by `_`, plus `.txt` |
| `Sanitizer.SanitizeViaWords` | article_webscrapper.py:86-87 | a title whose punctuation-free form is clean words separated by one whitespace character each gets those words joined by `_`, plus `.txt` |
| `Sanitizer.SanitizeAnySpace` | article_webscrapper.py:86-87 | replacing a space by any other whitespace character, a newline or a tab say, does not change the filename |
| `Sanitizer.PunctuationCollision` | article_webscrapper.py:86-87 | `"A, B!"` and `"A B"` both become `"A_B.txt"` |
| `Sanitizer.NewlineExample` | article_webscrapper.py:86-87 | `"\nA B"`, with a leading newline as `h1.text` often has, becomes `"A_B.txt"` |
| `Sanitizer.TabExample` | article_webscrapper.py:86-87 | `"A\t B"` becomes `"A_B.txt"`: a whitespace run starting with a tab is one separator |
| `Sanitizer.ScientistsExample` | article_webscrapper.py:86-87 | `"Scientists, Discover: New Species!"` becomes `"Scientists_Discover_New_Species.txt"` |
| `Sanitizer.TestTitleName` | article_webscrapper.py:86-87 | `"Test Title"` becomes `"Test_Title.txt"` |
| `Listing.LinksOfType` | article_webscrapper.py:43-46 | the filter returns at most one link per node, and returns none exactly when no node has the requested category |
| `Listing.MatchingPositions` | article_webscrapper.py:43-46 | the positions of the nodes whose category equals the requested type, strictly increasing, all of them |
| `Listing.LinksAreMatchingHrefs` | article_webscrapper.py:44-46 | the k-th link returned is the `href` of the k-th node whose category equals the type, so the result is exactly those links in document order |
| `Listing.LinksOfTypeMembership` | article_webscrapper.py:44-46 | a link is returned if and only if some node with exactly that category carries it |
| `Listing.LinksOfTypeAppend` | article_webscrapper.py:44-46 | filtering two consecutive parts of a listing is filtering each and concatenating, in order |
| `Listing.UnmatchedHrefIgnored` | article_webscrapper.py:44-46 | the `href` of a node whose category does not match is never used: replacing it by any string leaves the returned links unchanged |
| `Listing.NewsExample` | article_webscrapper.py:43-46 | nodes labelled "News", "Research", "News" give the first and third links for "News" |
| `Listing.CaseSensitiveExample` | article_webscrapper.py:46 | a node labelled "news" is not selected for "News" |
| `Persister.FileStore.WriteFile` | article_webscrapper.py:91-92 | opening in mode `'w'` and writing replaces the file's whole content with the body; no other file changes |
| `Persister.SavedNames` | article_webscrapper.py:83-96 | one name per article, in input order, the i-th being the sanitised i-th title |
| `Persister.Persist` | article_webscrapper.py:85-92 | no ensures of its own: the directory after the writes of the loop, one after the other; `PersistKeys`, `PersistLeavesOthers`, `PersistLastWriteWins` and `PersistDistinctRoundTrip` state what it holds |
| `Persister.SaveToFile` | article_webscrapper.py:83-96 | returns `SavedNames` of the input, leaves the store equal to `Persist` of the old store, and each name whose article is the last one with that name holds that article's body |
| `Persister.PersistKeys` | article_webscrapper.py:89-94 | afterwards the directory holds the files it held before and the returned names, nothing else |
| `Persister.PersistLeavesOthers` | article_webscrapper.py:91-92 | a file whose name is not returned keeps its content, or stays absent |
| `Persister.PersistLastWriteWins` | article_webscrapper.py:89-92 | a file holds, unchanged, the body of the last article whose title sanitises to its name; earlier writes are overwritten |
| `Persister.PersistDistinctRoundTrip` | article_webscrapper.py:89-94 | when no two titles collide, reading back each returned name yields exactly its article's body |
| `Persister.PersistNothing` | article_webscrapper.py:83-96 | no articles means no names and an unchanged directory |
| `Persister.CollisionOverwrites` | article_webscrapper.py:86-94 | titles `"A, B!"` and `"A B"` both report `"A_B.txt"`, and that file keeps only the second body |
| `Persister.TestTitleExample` | article_webscrapper.py:86-94 | an article titled `"Test Title"` with body `"Body content."` is saved as `Test_Title.txt` holding that body |

## Left out

- `get_source_code` (line 16): an HTTP GET through `requests`. Network I/O, the `Accept-Language` header and response decoding are outside the model.
- `make_soup` (line 29) and the DOM lookups (`find_all`, `find`, `.a`, `.h1`, `.text`): these belong to BeautifulSoup. The listing is given as a sequence of `ArticleNode` values.
- Missing nodes inside an `<article>`. The condition on line 46 reads `span.c-meta__type` of every node, so a node without that span always stops the script with an `AttributeError`; the model assumes the span is present. A node without an `<a>` fails on line 44 only when its category equals `article_type`, since the link is read only for nodes that pass the test. For a node that does not match, `LinksOfType` never reads `href`, so any string can stand in for the missing link and the result is the same (`UnmatchedHrefIgnored`).
- `article.a.get('href')` (line 44) gives `None` for a link without an `href`, and that `None` lands in the returned list. `ArticleNode.href` is always a string, so the model does not represent it.
- `get_articles_info` (lines 49-70): it fetches and parses one page per link. Its only own logic is prefixing `https://www.nature.com` (line 62), which only feeds I/O.
- Real file handling (lines 91-92): OS errors, invalid or over-long filenames (`".txt"` for an empty title works as a name), encodings and case-insensitive file systems. The directory is a map.
- `open(..., 'w')` (line 91) opens the file in text mode. On Windows each `\n` of the body is written as `\r\n`, so "the file holds the body unchanged" (`WriteFile`, `PersistLastWriteWins`, `PersistDistinctRoundTrip`) holds for POSIX systems, where text mode writes the characters as they are.
- `main` and the module-level call (lines 99-109): orchestration and `print`.
- `Sanitizer.IsSpace`: fixed to the characters for which `str.isspace()` holds in current Unicode data. A Python build with older Unicode tables may differ on U+180E.
