# gournal, modelled in Dafny

gournal is a minimal Go blog. An article (a post, in the older copy of the code in
`main.go`) is a title, a body and a slug derived from the title. Articles are
stored one JSON file per slug, `<dir>/<slug>.json`, and listed newest first.
This project models the logic behind that and proves properties of it:

- the slug pipeline (`strings.ToLower`, three regexp replacements, `strings.Trim`);
- the record constructors and the `"Title (Slug)"` formatter;
- the store: `Save`, `Load` and `All` in package `article`; `save`, `LoadPost` and
  the listing loop of `HomeHandler` in `main.go`;
- the `byLatestDate` ordering and the `sort.Sort` call that uses it.

Modules, one per file:

- `Wrappers` (`wrappers.dfy`): `Option`.
- `Text` (`text.dfy`): the string steps of the slug pipeline, each as its own
  recursive function over runes. Also the `"%s (%s)"` layout and a reader for it.
- `Files` (`files.dfy`): the flat-file directory, in place of `ioutil.ReadDir`,
  `ReadFile` and `WriteFile`.
  - A `Directory` object holds a map from file name to entry (contents plus an
    integer modification time).
  - Two flags say whether the directory can be listed and written.
  - JSON contents are either an encoded `{Title, Body, Slug}` document or bytes
    that do not decode.
- `ByLatestDate` (`bylatestdate.dfy`): `Less`, `Swap` and the in-place sort of a
  listing, newest first. The type is declared identically in
  `article/article.go:24-29` and `main.go:171-176`, and is modelled once for both.
- `Articles` (`article.dfy`): package `article`.
- `SlugExamples` (`slug_examples.dfy`): worked slug examples.
- `Gournal` (`gournal.dfy`): the model of `main.go`.
  - Its `Slugify`, `String` and `Encode` are proved equal to those of `Articles`.
  - Its home listing loop differs from `All`. `All` stops at the first failed
    load. The home listing reports the error, puts a nil post in that slot and
    carries on.

The code of `HomeHandler` (`main.go:71-86`) does
not call `All`: it runs its own loop, which does not stop on a failed load. It
also does not return after reporting an unlistable directory. The model follows
the code.

## Model

| member | source | states |
|---|---|---|
| Text.LowerChar | article/article.go:91 | a rune is lowered to an ASCII letter or digit exactly when it already is one, is an ASCII capital, or is U+0130 or U+212A; space and '-' are kept, and nothing else becomes a space or '-' |
| Text.ToLower | article/article.go:91 | lowering keeps the length and lowers each rune in place |
| Text.KeepAllowed | article/article.go:92 | deleting `[^a-z0-9 -]` leaves only allowed runes and never lengthens the text |
| Text.ReplaceRuns | article/article.go:93-94 | replacing runs of a separator never lengthens the text |
| Text.TrimLeft | article/article.go:95 | the result is a suffix that does not start with ' ' or '-', and every rune cut off is ' ' or '-' |
| Text.TrimRight | article/article.go:95 | the result is a prefix that does not end with ' ' or '-', and every rune cut off is ' ' or '-' |
| Text.Trim | article/article.go:95 | the trimmed text neither starts nor ends with ' ' or '-' and is no longer than the input |
| Text.ToLowerConcat | article/article.go:91 | lowering distributes over concatenation |
| Text.KeepAllowedConcat | article/article.go:92 | the deletion step distributes over concatenation |
| Text.ReplaceRunsConcat | article/article.go:93-94 | replacing runs in a concatenation is replacing them in each part, the second part starting inside a run when the first part ends with the separator |
| Text.KeepAllowedAlnum | article/article.go:92 | the deletion step removes no letter or digit |
| Text.ReplaceRunsAlnum | article/article.go:93-94 | replacing runs of one separator by another keeps the letters and digits in order |
| Text.ReplaceRunsChars | article/article.go:93-94 | every rune of the result is the replacement or a rune of the input other than the separator |
| Text.ReplaceRunsNoDoubled | article/article.go:94 | after collapsing runs of '-' no "--" remains |
| Text.ReplaceRunsFixed | article/article.go:94 | text without "--" is left unchanged by collapsing runs of '-' |
| Text.ReplaceRunsAbsent | article/article.go:93 | text without spaces is left unchanged by the space step |
| Text.KeepAllowedFixed | article/article.go:92 | text of allowed runes is left unchanged by the deletion step |
| Text.TrimAlnum | article/article.go:95 | trimming removes no letter or digit |
| Text.TrimLeftAlnum | article/article.go:95 | trimming on the left removes no letter or digit |
| Text.TrimRightAlnum | article/article.go:95 | trimming on the right removes no letter or digit |
| Text.TrimKeeps | article/article.go:95 | trimming adds no rune and creates no "--" |
| Text.TrimKeepsRunes | article/article.go:95 | every rune of the trimmed text is a rune of the input |
| Text.TrimKeepsNoDoubled | article/article.go:95 | trimming text without "--" gives text without "--" |
| Text.TrimIsSlice | article/article.go:95 | the trimmed text is the contiguous slice of the input after the cut-off prefix |
| Text.UnhyphenAlnum | article/article.go:92-95 | over `[a-z0-9-]`, removing hyphens is keeping letters and digits |
| Text.Labelled | article/article.go:84 | the line is the title, " (", the slug and ")", in that order |
| Text.SplitLabel | article/article.go:84 | whatever pair it reads back lays out to exactly the line it was read from |
| Text.SplitLabelled | article/article.go:84 | a line whose slug has no '(' reads back to exactly its title and slug |
| Files.FileName | article/article.go:78 | the file of a slug is the slug followed by ".json" |
| Files.FileNameInjective | article/article.go:78 | distinct slugs have distinct file names |
| Files.Stem | article/article.go:61 | the slug of a listed file is its name without the last five characters |
| Files.StemFileName | article/article.go:61 | a name ending in ".json" is the file of its stem |
| Files.FileNameStem | article/article.go:61 | the stem of the file of a slug is the slug |
| Files.ReadFile | article/article.go:41-44 | reading succeeds exactly on a present file and gives its contents; otherwise NotFound |
| Files.ArrangementEnumerates | article/article.go:55-59 | any rearrangement of the directory's listing has one entry per file, with its time, and no file twice |
| Files.Directory.ReadDir | article/article.go:55-58 | an unlistable directory gives an I/O error and no entries; otherwise a fresh array holding exactly the directory's listing entries |
| Files.Directory.WriteFile | article/article.go:78 | a writable directory gets the named file replaced and stamped with the current time; otherwise an I/O error and no change |
| ByLatestDate.Less | article/article.go:28 | entry i sorts before entry j only when their modification times differ, so an entry never sorts before itself or before another entry of the same time (the same method is main.go:175) |
| ByLatestDate.LessIsStrict | article/article.go:28 | Less is irreflexive, asymmetric and transitive |
| ByLatestDate.Swap | article/article.go:29 | Swap exchanges two entries, changes nothing else and keeps the multiset of entries |
| ByLatestDate.Sort | article/article.go:59 | after sorting, the array holds the same entries (as a multiset) with modification times non-increasing |
| Articles.Slugify | article/article.go:90-97 | the slug is never longer than the title |
| Articles.SlugifyIsSlug | article/article.go:92-95 | every slug is over `[a-z0-9-]`, has no "--" and has no '-' at either end |
| Articles.SlugifyKeepsAlnum | article/article.go:91-95 | removing the hyphens from the slug gives exactly the letters and digits of the lower-cased title, in order |
| Articles.SlugifyEmpty | article/article.go:90-97 | the slug is empty exactly when the lower-cased title has no letter or digit |
| Articles.SlugFixedPoint | article/article.go:90-97 | Slugify leaves a string unchanged exactly when it is slug-shaped |
| Articles.SlugifyIdempotent | article/article.go:90-97 | slugifying a slug changes nothing |
| Articles.New | article/article.go:34-36 | title and body are kept verbatim and the slug is Slugify of the title, hence slug-shaped |
| Articles.String | article/article.go:83-85 | the line starts with the title and ends with ')', three runes longer than title and slug |
| Articles.StringReadsBack | article/article.go:83-85 | title and slug are recovered from the line whenever the slug has no '(' |
| Articles.NewString | article/article.go:34-36 | the line of a new article reads back to its title and its slug |
| Articles.Encode | article/article.go:74 | marshalling always gives decodable contents |
| Articles.Decode | article/article.go:45-48 | unmarshalling fails with a parse error exactly on undecodable contents, and a decoded article encodes back to the contents |
| Articles.DecodeEncode | article/article.go:74 | decoding an encoded article gives it back |
| Articles.Load | article/article.go:40-50 | NotFound exactly when the file is absent, ParseFailure exactly when it does not decode, success exactly when the file exists and decodes, and then the article stored there |
| Articles.Stored | article/article.go:73-79 | a save changes only the file of the article's slug, which then holds the encoded article |
| Articles.LoadAfterSave | article/article.go:73-79 | loading the slug just saved gives the article back |
| Articles.LoadOtherAfterSave | article/article.go:78 | saving an article changes what is loaded under no other file name, so no other slug whose file name is a different string loads anything new |
| Articles.SameSlugOverwrites | article/article.go:78 | saving an article with an earlier article's slug erases the earlier one |
| Articles.LastWriteWins | article/article.go:34-36 | two titles with equal slugs share a file: the later save replaces the earlier, and loading gives the later article |
| Articles.Save | article/article.go:73-79 | a writable directory ends up as Stored of the old one; otherwise an I/O error and no change |
| Articles.LoadAll | article/article.go:60-66 | a successful listing has one article per entry |
| Articles.LoadAllSuccess | article/article.go:60-67 | loading all entries succeeds exactly when each one loads, and then gives each entry's article at its position |
| Articles.LoadAllFailure | article/article.go:61-64 | a failure carries the error of the first entry that does not load, all earlier entries loading |
| Articles.LoadAllStops | article/article.go:62-64 | once a prefix of the entries fails, the whole listing fails with the same error |
| Articles.ListingLoads | article/article.go:54-68 | over a listing of the directory, loading succeeds exactly when every file name has a stem whose article loads |
| Articles.LoadEntries | article/article.go:60-67 | the loop returns exactly LoadAll of the entries, stopping at the first failure |
| Articles.All | article/article.go:54-68 | an unlistable directory gives an I/O error; otherwise the walked listing enumerates the directory newest first and the result is LoadAll of it |
| SlugExamples.SlugifyHelloWorld | article/article.go:90-97 | "Hello, World!" gives "hello-world" |
| SlugExamples.SlugifySpaces | article/article.go:93 | "a   b" gives "a-b" |
| SlugExamples.SlugifySpacedHyphen | article/article.go:93-94 | "a - b" gives "a-b" |
| SlugExamples.SlugifyTab | article/article.go:92 | "a\tb" gives "ab": the tab is deleted, not hyphenated |
| SlugExamples.SlugifyNoAlnum | article/article.go:90-97 | "" and "-?!-" give the empty slug |
| Gournal.Slugify | main.go:146-153 | slugify agrees with Articles.Slugify on every title, so its results are slug-shaped |
| Gournal.NewPost | main.go:119-121 | title and body are kept verbatim and the slug is slugify of the title |
| Gournal.String | main.go:51-53 | a post prints as the article with the same fields does: title first, ')' last |
| Gournal.NewPostString | main.go:51-53 | the line of a new post reads back to its title and its slug |
| Gournal.Encode | main.go:138 | marshalling always gives decodable contents |
| Gournal.Decode | main.go:129-132 | unmarshalling fails with a parse error exactly on undecodable contents, and a decoded post encodes back to the contents |
| Gournal.EncodeAsArticle | main.go:138 | a post is stored as the article with the same fields, and decodes back to itself |
| Gournal.LoadPost | main.go:124-134 | NotFound exactly when the file is absent, ParseFailure exactly when it does not decode, success exactly when the file exists and decodes, and then the post stored there |
| Gournal.Stored | main.go:137-143 | a save changes only the file of the post's slug, which then holds the encoded post |
| Gournal.LoadPostAfterSave | main.go:124-143 | loading the slug just saved gives the post back |
| Gournal.LoadOtherPostAfterSave | main.go:142 | saving a post changes what is loaded under no other file name, so no other slug whose file name is a different string loads anything new |
| Gournal.Save | main.go:137-143 | a writable directory ends up as Stored of the old one; otherwise an I/O error and no change |
| Gournal.Found | main.go:126-133 | a failed load gives a nil post, a successful one the loaded post |
| Gournal.Loads | main.go:77-84 | the loop collects exactly one slot per entry |
| Gournal.LoadsAt | main.go:78-84 | the slot of each entry holds the result of loading that entry, nil on failure |
| Gournal.LoadErrors | main.go:80-82 | no more errors are reported than there are entries |
| Gournal.LoadErrorsCount | main.go:80-83 | one error is reported for each nil post |
| Gournal.NoLoadErrors | main.go:80-82 | no error is reported exactly when every entry loads |
| Gournal.ListingLoads | main.go:78-84 | over a listing of the directory, every entry loads exactly when every file name has a stem whose post loads |
| Gournal.LoadEach | main.go:77-84 | the loop yields exactly Loads and LoadErrors of the entries: it never stops early |
| Gournal.HomeListing | main.go:72-84 | an unlistable directory gives one I/O error and no posts; otherwise the walked listing enumerates the directory newest first, with Loads and LoadErrors of it |

## Left out

- HTTP: routing, the handlers as such, `http.Error`, redirects, `main` and `ListenAndServe`. This is I/O plumbing. The model keeps only the listing part of `HomeHandler`: `errors` records what it passes to `http.Error`.
- Template parsing and rendering, which read external files and write the response.
- Files.FileNameInjective: file names are exact strings. Go joins the directory, the slug and ".json" into a path that the operating system resolves, so slugs such as `x`, `./x` and `sub/../x` name the same file there, and on a case-insensitive file system so do `x` and `X`. The model does not resolve paths: saving under one of these slugs does not change what another loads (Articles.LoadOtherAfterSave, Gournal.LoadOtherPostAfterSave). Slugs made by Slugify contain neither `/`, `.` nor capitals, so every slug the programs create is unaffected.
- The real filesystem. Directory and file permissions are reduced to two flags. A read error on a present file, a partial listing and sub-directories in a listing are not modelled.
- JSON encoding. It is an encode and decode pair that are inverse. The model does not cover:
  - the document `null`, which leaves a nil post with no error;
  - Go's replacement of invalid UTF-8 by U+FFFD;
  - unknown or missing fields.
- Files.Stem: the model covers names shorter than five characters only as a precondition, and counts them in runes. Go panics only on names shorter than five bytes, so a name of fewer than five runes but at least five bytes, which Go slices without panicking, is also excluded.
- Articles.All: requires, on a listable directory, that every file name has at least five characters. Go slices off the last five characters only when its loop reaches an entry, so it panics on a shorter name only if every entry sorted before it (newer ones and possibly some with the same time) loads; the requires also excludes directories in which an earlier entry fails to load first and Go returns that error without panicking.
- Gournal.HomeListing: requires, on a listable directory, that every file name has at least five characters. Its loop visits every entry whatever the loads give, so Go panics on any shorter name.
- Text.LowerChar: does not model the full Unicode case mapping. A non-ASCII rune other than U+0130 and U+212A is kept as it is. Its real lower case is not in `[a-z0-9 -]` either, so the next step deletes it in both cases, and the slug is the same.
- Lengths are counted in runes, not in bytes as Go's `len` counts them.
- ByLatestDate.Sort: the model does not follow the algorithm of `sort.Sort`. It is a selection sort through `Less` and `Swap`, specified only by permutation and order. Neither is stable.
- `byLatestDate.Len` is the array's `Length`.
- Modification times are integers and the clock is a parameter (`now`) of the writes.
- Concurrent access to the directory.
