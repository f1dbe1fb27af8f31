# subdomainExtractor, modelled in Dafny

subdomainExtractor is a command-line tool. It takes a target domain (`-d`) and either one URL (`-u`) or a file of URLs (`-f`). It fetches every page concurrently. It scans each page body for the pattern `([a-zA-Z0-9_-]+\.)+` followed by the domain, taken literally. It prints every subdomain found, once per run.

This project models the sequential logic of `main.go`:

- `args.dfy` (module `Arguments`): the usage check on the flags.
- `urls.dfy` (module `UrlList`): how the URL list is built.
  - The file is split into lines the way Go's line scanner splits it.
  - Each line is trimmed of white space. `IsSpace` is the white-space set of Go's `unicode.IsSpace`, not an ASCII subset.
  - Lines left blank are dropped. The others keep their order.
  - With `-u`, the list is the single URL.
- `pattern.dfy` (module `SubdomainPattern`): the meaning of the subdomain pattern, and the matches `FindAllString(content, -1)` returns.
  - No regular-expression engine is modelled. The pattern is given twice:
    - declaratively: `IsSubdomainOf` and `IsMatchSpan` say which strings the pattern describes;
    - operationally: `MatchAt` and `Scan` say which match the leftmost-first engine reports.
  - The lemmas prove that the two agree. Each reported match is the longest match at its start. The scan is leftmost and non-overlapping. Outside the reported matches, no position where a match starts is passed over. A match that starts inside a reported match is not reported, as in the engine.
  - Two worked examples are proved: the `ford.com` body, and `a.ford.community`, which shows that no word boundary is required after the domain.
- `extract.dfy` (module `Extractor`): `findSubdomains`. It collects the raw matches into a set, then lists the set's keys.
- `publish.dfy` (module `Publishing`): the run-wide de-duplication.
  - The `Publisher` class holds the `seen` set and the output sent so far.
  - `Publish` is one page's publish step, done under the lock.
  - `Run` applies that step to every fetched page.
- `common.dfy` (module `Common`): `Option`, `NoDuplicates` and `Elems`.

## Model

| member | source | states |
|---|---|---|
| Arguments.ArgsRejected | main.go:31 | the flags are accepted exactly when the domain is non-empty and exactly one of the URL and the URL file is given |
| UrlList.TrimSpace | main.go:48 | the trimmed line is no longer than the line and, when not empty, starts and ends with a non-space character |
| UrlList.TrimSpaceBlank | main.go:48-49 | the trimmed line is empty exactly when the line is all white space |
| UrlList.TrimSpaceOfPadded | main.go:48 | trimming removes exactly the white-space padding: a core with non-space ends comes back unchanged from between any padding |
| UrlList.TrimSpaceIdempotent | main.go:48 | trimming a trimmed line changes nothing |
| UrlList.Lines | main.go:46-47 | there are no more lines than characters in the file |
| UrlList.LinesHoldNoLineFeed | main.go:46-47 | no line the scanner yields contains a line feed |
| UrlList.LinesOfLineFeed | main.go:46-47 | a line ended by a line feed is split off as the first line, with a trailing carriage return dropped |
| UrlList.FinalLine | main.go:46-47 | a last line without a line feed is still yielded, with a trailing carriage return dropped |
| UrlList.LinesOfJoinLines | main.go:46-47 | splitting a file made of plain lines (no line feed, no trailing carriage return), each ended by a line feed, gives those lines back |
| UrlList.NonBlankTrimmed | main.go:47-52 | the filtered list is no longer than the list of lines |
| UrlList.NonBlankTrimmedStep | main.go:47-52 | reading one more line extends the list by that line, trimmed, unless it is blank after trimming |
| UrlList.NonBlankTrimmedAppend | main.go:47-52 | the filter works line by line and keeps file order: the filter of a concatenation is the concatenation of the filters |
| UrlList.NonBlankTrimmedTrimmed | main.go:47-52 | every URL kept is non-empty and is already trimmed |
| UrlList.NonBlankTrimmedSound | main.go:47-52 | every URL kept is the trimmed form of some line of the file |
| UrlList.NonBlankTrimmedComplete | main.go:47-52 | every line that is not blank after trimming contributes its trimmed form |
| UrlList.CollectFileUrls | main.go:46-52 | the scanning loop yields exactly the trimmed non-blank lines, in file order |
| UrlList.LoadUrls | main.go:37-55 | without a URL file the list is exactly `[url]`; a file that cannot be opened stops the run; otherwise the list is the trimmed non-blank lines of the file, in order |
| SubdomainPattern.RunEnd | main.go:147 | the end of the maximal run of `[a-zA-Z0-9_-]` characters from a position |
| SubdomainPattern.GroupEnd | main.go:147 | a group found at a position is one `[a-zA-Z0-9_-]+\.` |
| SubdomainPattern.GroupEndUnique | main.go:147 | at most one group starts at any position, and `GroupEnd` finds it |
| SubdomainPattern.GreedyTail | main.go:147 | a match end the greedy repetition reports lies after the domain's length |
| SubdomainPattern.MatchAt | main.go:147-148 | a match the engine reports at a position spans at least one group and the domain |
| SubdomainPattern.ChainIsDotted | main.go:147 | groups chained from a position spell a string of the shape `([a-zA-Z0-9_-]+\.)+` |
| SubdomainPattern.DottedIsChain | main.go:147 | every string of that shape is cut into consecutive groups |
| SubdomainPattern.DottedPrepend | main.go:147 | a group in front of a string of that shape keeps the shape |
| SubdomainPattern.GreedyTailPicksFarthest | main.go:147 | preferring one more group finds, among the group-chain ends followed by the domain, the farthest one, and only such an end |
| SubdomainPattern.MatchSpanIsChain | main.go:147 | every declarative match is a chain of groups followed by the domain |
| SubdomainPattern.ChainIsMatchSpan | main.go:147 | a chain of groups followed by the domain is a declarative match |
| SubdomainPattern.MatchAtIsMatchSpan | main.go:147-148 | a match the engine reports at a position is a match in the declarative reading of the pattern |
| SubdomainPattern.MatchAtIsLongestMatch | main.go:147-148 | the engine reports a match at a position exactly when one starts there, and reports the longest one |
| SubdomainPattern.Scan | main.go:149 | every reported span lies after the starting position and is non-empty |
| SubdomainPattern.ScanStartsAfterGap | main.go:149 | each reported span starts at or after the end of the previous span, or at or after the starting position for the first one |
| SubdomainPattern.ScanReportsEngineMatches | main.go:149 | each reported span is the engine's match at its start |
| SubdomainPattern.ScanSkipsNoMatch | main.go:149 | no match starts between the end of one reported span and the start of the next |
| SubdomainPattern.ScanMissesNoTail | main.go:149 | no match starts after the last reported span |
| SubdomainPattern.NoMatchAtEnd | main.go:147-149 | no match starts at the end of the body |
| SubdomainPattern.FindAll | main.go:149 | one string per reported span |
| SubdomainPattern.FindAllReportsMatches | main.go:147-149 | every string returned is a match in the declarative reading, and is the body's text at its reported span |
| SubdomainPattern.FindAllReportsLongestMatches | main.go:147-149 | every string returned is a match of the pattern found in the body, and is the longest match at its start |
| SubdomainPattern.FindAllIsNonOverlapping | main.go:149 | the matches are reported left to right and do not overlap |
| SubdomainPattern.FindAllIsLeftmost | main.go:149 | no match starts at a position the scan passed over: before the first match, between two matches, or after the last |
| SubdomainPattern.FindAllShape | main.go:147-149 | every string returned ends with the domain, has one or more label groups before it, and occurs in the body |
| SubdomainPattern.FindAllWithoutDomain | main.go:146-149 | a body in which the domain does not occur yields no match, and, for a domain that is valid text, no error |
| SubdomainPattern.ScanStepNone | main.go:149 | a position where no match starts is skipped |
| SubdomainPattern.ScanStepSome | main.go:149 | a match found at a position is reported, and the scan resumes at its end |
| SubdomainPattern.NoGroupNoMatch | main.go:147 | no match starts where no group starts |
| SubdomainPattern.ScanWithoutDot | main.go:147-149 | past the last dot of the body the scan reports nothing |
| SubdomainPattern.FindAllFordExample | main.go:147-149 | for `go to a.b.ford.com and www.ford.com today` and `ford.com`, the raw matches are exactly `a.b.ford.com` and `www.ford.com` |
| SubdomainPattern.FindAllIgnoresWordBoundary | main.go:147-149 | for `a.ford.community` and `ford.com`, the raw matches are exactly `a.ford.com`, with no word boundary after the domain |
| Extractor.CollectKeys | main.go:151-154 | the set's keys are exactly the raw matches, and there are no more keys than raw matches |
| Extractor.ListKeys | main.go:156-159 | the list holds every key exactly once: no duplicates, the same elements, as many entries as keys |
| Extractor.FindSubdomains | main.go:146-161 | no duplicates; the elements are exactly the distinct raw matches; each has the subdomain shape and occurs in the body; there are no more entries than raw matches; the result is empty when the domain does not occur |
| Extractor.FindSubdomainsFordExample | main.go:146-161 | for `go to a.b.ford.com and www.ford.com today` and `ford.com`, the result holds exactly `a.b.ford.com` and `www.ford.com`, each once |
| Publishing.Fresh | main.go:103-108 | a publish step sends no more entries than the batch holds |
| Publishing.FreshElems | main.go:103-108 | a publish step sends exactly the matches not seen before |
| Publishing.FreshNoDuplicates | main.go:103-108 | a publish step sends nothing twice, and nothing already seen |
| Publishing.FreshAppend | main.go:102-109 | publishing two batches one after the other sends what publishing their concatenation sends |
| Publishing.Publisher.constructor | main.go:73 | the run starts with nothing seen and nothing sent |
| Publishing.Publisher.PublishOne | main.go:104-107 | a match not seen before is sent and marked as seen; a match already seen changes nothing; nothing is ever sent twice |
| Publishing.Publisher.Publish | main.go:102-109 | afterwards `seen` is the old `seen` plus the batch; the output gains exactly the batch's values not seen before, each once; nothing is ever sent twice, and `seen` is exactly what was sent |
| Publishing.AllMatchesShape | main.go:101-109 | everything found on the pages has the subdomain shape and occurs on one of the fetched pages |
| Publishing.Run | main.go:84-120 | the output has no duplicates, holds exactly the subdomains found on the pages fetched successfully, and every entry has the subdomain shape |

## Left out

- Fetching (`fetchContent`, main.go:123-144) is network I/O: the HTTP GET, the optional skipping of TLS certificate checks, the status-200 check and the body read. `Run` takes each fetch's outcome as a parameter: the body, or `None` for any failure.
- Concurrency is left out: the goroutines, the `WaitGroup`, the semaphore, the `time.Tick` rate limiter, the results channel and its closing (main.go:68-71, 84-116). `Run` publishes the pages one at a time, in the order their goroutines take the lock. Any such order is a parameter of the model.
- The mutex itself is left out. The publish step is modelled as one uninterrupted method call.
- I/O is left out: flag parsing (main.go:21-29), printing the usage, opening the URL file, creating the output file, the progress bar and writing the results (main.go:32-34, 39-44, 57-66, 76-82, 95, 118-120).
  - `LoadUrls` takes the file's content as a parameter, or `None` when it cannot be opened.
  - `ArgsRejected` decides only whether the run stops.
- LoadUrls: does not model the line scanner's 64 KiB token limit, or a read error at any point, including the first read. In both cases the source ignores the scanner's error and keeps the lines read so far, possibly none; the run then goes on with those URLs. The model reads every line.
- Text is modelled as sequences of Unicode characters, not UTF-8 bytes. Invalid UTF-8 in a page or in the URL file is not modelled.
- FindSubdomains: does not model the panic on a domain that is not valid UTF-8. A flag value is raw bytes, and `QuoteMeta` passes such bytes through. `MustCompile` then panics at the first page fetched successfully, which ends the whole run (main.go:147-148). The model's strings are Unicode, so such a domain cannot be written.
- Go's `regexp` engine and `QuoteMeta` (main.go:147-148) are not modelled as such. The domain is matched as a literal string, which is what quoting achieves. The engine's leftmost-first choice is modelled for this one pattern.
- Output order is not determined by the model:
  - `ListKeys` and `FindSubdomains` list the set in any order, like Go's map iteration.
  - `Run` fixes the order only through the page order it is given.
- The rate limiter's division `time.Second / maxRPS` panics when `maxRPS` is 0 (main.go:71). This is timing code and is left out, along with `maxThreads`.
