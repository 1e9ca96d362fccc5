# Chess sound-effect downloader: naming and set logic

This project models the decision logic of `scripts/download_sfxengine_chess.py`. That script scans one web page for audio links, downloads every file it finds into a directory, and writes `manifest.json`. Three parts are modelled and proved.

- **Link extraction** (`extract_links`). The model covers the two case-insensitive textual scans and what `findall` returns for them. Each match is resolved against the page URL and added to a set, and the set is returned sorted. The resolver `urljoin` is a function parameter `resolve`. No property of its results is assumed, but as a total function it is assumed never to raise (see Left out). `Links.ExtractLinks` takes the scans' matches as input, as the loop on lines 45-51 consumes them. `Links.ExtractPageLinks` runs the modelled scans on the page text itself, with the attribute pattern read either as written or as evidently intended.
- **Destination naming** (`download_file`, lines 61-73). The filename comes from the last component of the URL's path. It falls back to `audio`, and `.mp3` is appended to a name without an audio extension. If the name is taken and overwrite is off, `stem-1suffix`, `stem-2suffix`, … are tried until one is free. The directory is the finite set of names already present in it.
- **Manifest record** (`write_manifest`, lines 83-95). This is the record with the page URL, a count, and one entry per downloaded path in order. Every entry's `source_url` is the page URL, as the code writes it, not the URL the file came from.

Modules:

- `Text` covers ASCII lower-casing, suffix tests and decimal numerals.
- `StringOrder` covers Python's `str` ordering and `sorted` on a set.
- `Scan` covers the two regular expressions.
- `Links` covers `extract_links`.
- `PosixPath` covers `Path.name`, `.stem` and `.suffix`.
- `Download` covers filename derivation and collisions.
- `Manifest` covers the manifest record.

## Model

| member | source | states |
|---|---|---|
| `Links.ExtractLinks` | scripts/download_sfxengine_chess.py:37-53 | The result is strictly increasing, so it is sorted with no duplicates, and a URL found by both scans appears once. A URL is in it exactly when it is `resolve(base_url, m)` for a match `m` of either scan. It has at most as many entries as there are matches, and it is empty when both scans are empty. |
| `Links.ExtractPageLinks` | scripts/download_sfxengine_chess.py:37-53 | On page text, with the attribute pattern read as written or with optional whitespace around `=`, the result is strictly increasing and holds exactly the resolutions of the two scans' matches. It has no more entries than there are matches. Every link resolves a match that carries an audio extension. Empty text gives the empty list, not an error. |
| `Links.AnchorLinksAsWritten` | scripts/download_sfxengine_chess.py:37-53 | As written, the page `<a href="move.mp3">` gives no link at all, whatever the page URL and resolver. |
| `Links.AnchorLinksCorrected` | scripts/download_sfxengine_chess.py:37-53 | With optional whitespace around `=`, the same page gives exactly one link: `move.mp3` resolved against the page URL. |
| `Links.OneMatchOneLink` | scripts/download_sfxengine_chess.py:43-53 | A sorted, duplicate-free list of the resolutions of a single match is that one resolution. |
| `Links.ScanOrderIrrelevant` | scripts/download_sfxengine_chess.py:43-53 | Collecting the two scans in either order gives the same sorted list, so the output does not depend on the order of the two loops. |
| `Links.ResolvedSize` | scripts/download_sfxengine_chess.py:43-51 | The set of resolved URLs is never larger than the number of matches. |
| `StringOrder.SortedList` | scripts/download_sfxengine_chess.py:53 | `sorted(found)` lists every element of the set once, in strictly increasing order, and nothing else. |
| `StringOrder.SortingUnique` | scripts/download_sfxengine_chess.py:53 | There is only one strictly increasing listing of a set, so sorting is deterministic. |
| `StringOrder.SortingLength` | scripts/download_sfxengine_chess.py:53 | A sorted listing has exactly as many entries as the set. |
| `StringOrder.Less` | scripts/download_sfxengine_chess.py:53 | The `<` on `str` that `sorted` uses is irreflexive, and a proper prefix comes before the longer string. |
| `StringOrder.LessTotal` | scripts/download_sfxengine_chess.py:53 | Python's string order is total on different strings and asymmetric. |
| `StringOrder.LessTransitive` | scripts/download_sfxengine_chess.py:53 | Python's string order is transitive. |
| `Scan.AttributeMatchAt` | scripts/download_sfxengine_chess.py:38-40 | A match of the attribute pattern starts with one of the seven attribute names. Its captured value is free of quotes and has `.ext` followed by the end or by `?`. The value stands in the text between two quotes, the closing one being the match's last character. As written, a match needs a backslash in the text. |
| `Scan.AttributeMatches` | scripts/download_sfxengine_chess.py:40-45 | `combined.findall(html)` with the pattern as written: every value it returns carries an audio extension. |
| `Scan.IntendedAttributeMatches` | scripts/download_sfxengine_chess.py:40-45 | The same scan with optional whitespace around `=`: every value it returns carries an audio extension. |
| `Scan.AssignmentAt` | scripts/download_sfxengine_chess.py:40 | After the attribute name, the rest of a match ends within the text and captures a quote-free value with an audio extension, quoted in the text just before the match's end. As written, it can only start at a backslash. |
| `Scan.OpeningAt` | scripts/download_sfxengine_chess.py:40 | After the `=`, a match ends within the text and captures a quote-free value with an audio extension, quoted in the text just before the match's end. |
| `Scan.QuotedValueAt` | scripts/download_sfxengine_chess.py:40 | After the opening quote, the captured value is exactly the text up to the closing quote, which is the match's last character. The value is quote-free and carries an audio extension. |
| `Scan.AttributeScan` | scripts/download_sfxengine_chess.py:45 | Every value `findall` returns for the attribute pattern is quote-free, carries an audio extension, and stands between two quotes somewhere after the scan's start. |
| `Scan.NoBackslashNoAttributeMatch` | scripts/download_sfxengine_chess.py:40 | As written, text without a backslash gives no attribute match at all. |
| `Scan.QuotedHrefMatched` | scripts/download_sfxengine_chess.py:40 | With whitespace around `=`, text that holds `href="v"` from `i` to `e` is matched at `i`. The match captures exactly `v` and ends at `e`, for any quote-free `v` with an audio extension. It covers only the name `href`, in lower case, with nothing between the name, `=` and the double quote. |
| `Scan.AnchorMissedAsWritten` | scripts/download_sfxengine_chess.py:40-41 | On `<a href="move.mp3">`, the scans as written find nothing. |
| `Scan.AnchorFoundWithSpaces` | scripts/download_sfxengine_chess.py:40 | With whitespace around `=`, the attribute scan of `<a href="move.mp3">` returns exactly `["move.mp3"]`. |
| `Scan.AbsoluteMatchAt` | scripts/download_sfxengine_chess.py:41 | A bare-URL match starts with `http` in any case, stays within the text, and the matched text carries an audio extension, optionally followed by a query. |
| `Scan.AbsoluteMatchExtent` | scripts/download_sfxengine_chess.py:41 | A match ends after the last audio dot of the run of `[^'"\s]` that follows `https?://`, its extension word, and a non-empty `?query` when one follows. When that run holds no audio dot, there is no match. |
| `Scan.BareUrlMatched` | scripts/download_sfxengine_chess.py:41 | Suppose the text holds `http://body.ext` with an optional non-empty `?query`, followed by the end, a quote or whitespace. If nothing after the extension is another audio dot, the match at the URL's start is the whole URL. It covers only the scheme `http://` in lower case, not `https://` or other casings. |
| `Scan.LastAudioDot` | scripts/download_sfxengine_chess.py:41 | Backtracking from the end of the run settles on an audio dot of the range with no audio dot after it. There is no result exactly when the range holds no audio dot. |
| `Scan.SchemeEnd` | scripts/download_sfxengine_chess.py:41 | `https?://` ends 7 characters on, or 8 with the `s`, just after `://`. Either form is found whenever it is present. |
| `Scan.QueryEnd` | scripts/download_sfxengine_chess.py:41 | A `?` followed by at least one character of `[^'"\s]` is taken whole, up to a quote, whitespace or the end. Otherwise the optional query matches nothing. |
| `Scan.UrlBodyEnd` | scripts/download_sfxengine_chess.py:41 | After the scheme, the match ends after the last audio dot of the run, its extension and its query, and the text matched carries an audio extension. There is no match when the run holds no audio dot. |
| `Scan.AbsoluteMatches` | scripts/download_sfxengine_chess.py:41-49 | `absolute.findall(html)`: every match starts with `http` in any case and carries an audio extension. |
| `Scan.AbsoluteScan` | scripts/download_sfxengine_chess.py:49 | Every match `findall` returns for the bare-URL pattern starts with `http` and carries an audio extension, optionally followed by a query. |
| `Scan.NoColonNoAbsoluteMatch` | scripts/download_sfxengine_chess.py:41 | Text without a colon gives no bare-URL match. |
| `Scan.EmptyPageNoMatches` | scripts/download_sfxengine_chess.py:43-53 | Empty text gives no match from either scan. |
| `PosixPath.Name` | scripts/download_sfxengine_chess.py:62 | `Path(p).name` is empty or a proper component: not empty, not `.`, no `/`. |
| `PosixPath.NameOfJoin` | scripts/download_sfxengine_chess.py:62 | The name of `dir/c` is `c`, and so is the name of `c`, for any proper component `c`. |
| `PosixPath.NameIgnoresTrailingSlash` | scripts/download_sfxengine_chess.py:62 | A trailing `/` does not change the name. |
| `PosixPath.NameIgnoresTrailingDot` | scripts/download_sfxengine_chess.py:62 | A trailing `/.` does not change the name. |
| `PosixPath.Suffix` | scripts/download_sfxengine_chess.py:69 | `Path.suffix` is empty, or a dot followed by at least one character and no further dot. It is a tail of the name. |
| `PosixPath.Stem` | scripts/download_sfxengine_chess.py:68 | The stem followed by the suffix is the name again, and a non-empty name has a non-empty stem. |
| `Download.DeriveFilename` | scripts/download_sfxengine_chess.py:61-64 | The lower-cased result always ends in one of the six audio extensions and is a proper component. An empty last segment gives `audio.mp3`. A segment is kept unchanged exactly when it already has an audio extension; otherwise it gets `.mp3` appended. |
| `Download.HasAudioExtension` | scripts/download_sfxengine_chess.py:63 | A name with an audio extension has at least four characters, the shortest extension's length. |
| `Download.AudioExtensionOf` | scripts/download_sfxengine_chess.py:63 | A name has an audio extension exactly when its lower-cased form ends in one of the six entries of `AUDIO_EXTENSIONS`. |
| `Download.MpThreeAppended` | scripts/download_sfxengine_chess.py:64 | Any name with `.mp3` appended has an audio extension. |
| `Download.DeriveIdempotent` | scripts/download_sfxengine_chess.py:62-64 | Deriving again from the derived name, alone or under any directory, gives the same name. |
| `Download.ResolveCollision` | scripts/download_sfxengine_chess.py:66-73 | For a proper component (which the derived name always is), with overwrite on or a free name, the result is the derived name. With overwrite off, the result is not an existing name. When the name is taken, the result is `stem-k suffix` for the least `k >= 1` whose name is free. |
| `Download.DownloadDestination` | scripts/download_sfxengine_chess.py:61-73 | The same three facts, stated for the filename derived from the URL's path. |
| `Download.Candidate` | scripts/download_sfxengine_chess.py:72 | `f"{stem}-{counter}{suffix}"` is as long as the stem, the hyphen, the counter's numeral and the suffix together. |
| `Download.CandidateParts` | scripts/download_sfxengine_chess.py:72 | A candidate starts with the stem and a hyphen and ends with the suffix. Between them are digits that read back as the counter. |
| `Download.CandidateInjective` | scripts/download_sfxengine_chess.py:72 | Different counters give different candidate names. |
| `Download.ExaminedFresh` | scripts/download_sfxengine_chess.py:67-73 | Each test of `destination.exists()` examines a name not examined before. This is why the loop ends for any finite directory. |
| `Download.CollisionBound` | scripts/download_sfxengine_chess.py:67-73 | The chosen counter is at most the number of existing names. |
| `Download.CandidateKeepsExtension` | scripts/download_sfxengine_chess.py:68-72 | When the name splits into stem and suffix, every numbered variant still has an audio extension. |
| `Download.BareExtensionCandidate` | scripts/download_sfxengine_chess.py:62-72 | The name `.mp3` has no suffix for `Path`, so its first numbered variant is `.mp3-1`, which has no audio extension. |
| `Download.SecondCopyNumbered` | scripts/download_sfxengine_chess.py:66-73 | When `move.mp3` is taken and nothing else is, the counter chosen is 1 and the file is `move-1.mp3`. |
| `Text.ParseDecimalOfDecimal` | scripts/download_sfxengine_chess.py:72 | The counter's decimal numeral reads back as the counter. |
| `Text.Lower` | scripts/download_sfxengine_chess.py:63 | `str.lower()` keeps the length and lower-cases each ASCII capital in place, leaving every other character unchanged. |
| `Text.Decimal` | scripts/download_sfxengine_chess.py:72 | `f"{counter}"` is a non-empty string of digits without a leading zero, with two or more digits exactly from 10 on. |
| `Manifest.BuildManifest` | scripts/download_sfxengine_chess.py:83-95 | The record has the page URL and a `file_count` equal to the number of paths. It has one entry per path, in order. Each entry holds the path's last component, its relative path, and the page URL as `source_url`. |
| `Manifest.Entry` | scripts/download_sfxengine_chess.py:88-92 | An entry's `source_url` is the page URL. Its `filename` is the path's last component, empty or a proper component, and its `relative_path` is the path's relative form. |
| `Manifest.Entries` | scripts/download_sfxengine_chess.py:87-94 | The entry list has one element per path, each built from the path at the same position. |
| `Manifest.EntriesAppend` | scripts/download_sfxengine_chess.py:87-94 | The entries of two batches of paths, written together, are the first batch's entries followed by the second's. |
| `Manifest.AllEntriesFromPage` | scripts/download_sfxengine_chess.py:89-91 | Every entry has the page URL as its source and the name and relative path of one of the input paths. |
| `Manifest.ManifestNamesFiles` | scripts/download_sfxengine_chess.py:89 | Files written as `directory/name` are listed under their own names. |

## Findings

| source | as written | input that shows it | evidently intended | confidence | as-written member | corrected member |
|---|---|---|---|---|---|---|
| scripts/download_sfxengine_chess.py:40 | In the `rf"..."` pattern, `\\s*` reaches `re` as `\\s*`. That regex is a literal backslash followed by any number of `s`, required on each side of `=`. | `<a href="move.mp3">`: neither scan finds anything, so on `https://x.com/sfx/` no link is extracted. | Optional whitespace around `=`, so the anchor yields `move.mp3`, which resolves to `https://x.com/sfx/move.mp3`. | high; not executed | `Links.AnchorLinksAsWritten` | `Links.AnchorLinksCorrected` |

`Scan.AttributeMatches` is the scan as written, and `Scan.NoBackslashNoAttributeMatch` shows that it never matches text without a backslash. `Scan.IntendedAttributeMatches` is the corrected scan. `Links.ExtractPageLinks` takes the reading of the separator as its parameter `sep`. At the scan level, `Scan.AnchorMissedAsWritten` and `Scan.AnchorFoundWithSpaces` show the two halves, and the two `Links` members carry them through to `extract_links`. `Links.ExtractLinks` takes the matches as input, so it holds for either scan.

A related edge case is modelled as written and not listed as a finding. A URL whose path ends in `/.mp3` derives the filename `.mp3`. `Path` treats that name as a dot-file with stem `.mp3` and no suffix. So when the name is taken, its numbered copies are `.mp3-1`, `.mp3-2`, … and lose the extension (`Download.BareExtensionCandidate`). This follows from the documented `pathlib` rule for dot-files rather than from an evident slip.

## Left out

- `fetch_html`, the `urlopen` / `shutil.copyfileobj` transfer in `download_file`, and `ensure_directory` are left out. They are network and filesystem I/O, and so is the charset decoding of the response.
- `parse_args` and `main` are left out. They are command-line plumbing, progress printing and exit codes. The order of the downloaded paths, which `main` collects, is the input of `Manifest.BuildManifest`.
- `urljoin` is the function parameter `resolve`, and no property of its results is assumed. `urlparse` is represented by its path component, the `urlPath` argument; for that reason the query string never reaches the filename.
- `Path.relative_to` and `str(Path)` are the function parameter `relative` of the manifest functions. `json.dumps` and `write_text` are serialisation and I/O.
- The filesystem is the finite set of names in the destination directory for which `Path.exists()` is true. `exists()` also reports directories and follows symlinks, so a dangling symlink's name counts as free, and line 76's `open("wb")` then writes through the link. The model does not tell these cases apart.
- `str.lower()` and `re.IGNORECASE` are modelled as ASCII case folding. Under IGNORECASE, Python's `re` also matches U+017F (long s) against `s` and U+212A (Kelvin sign) against `k`. The patterns have no `k`, but `s` occurs in the attribute names `src` and `data-src`, in the optional `s` of `https?`, and in the as-written `s*` after the backslash. Text using U+017F in those places is matched by Python and not by the model. No letter of an audio extension is affected, and `str.lower()` maps no non-ASCII character onto one.
- `Scan.AttributeMatchAt` and `Scan.AbsoluteMatchAt` resolve greedy repetition and backtracking by hand for these two patterns. This is not a model of the `re` engine in general.
- `Path` is modelled on POSIX (`/` only). Windows separators and drive letters are not modelled.
- `Links.ExtractLinks` and `Links.ExtractPageLinks`: `resolve` is a total function, so the model covers only runs in which every call of `urljoin` succeeds. `urljoin` can raise `ValueError`, for example on a netloc with an unbalanced `[`, such as the bare-URL match `http://[a.mp3`. Then `extract_links` raises instead of returning, and `main` does not catch the error.
