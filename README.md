# wrk — a Dafny model of the selection core

`wrk` reads a file of YouTube search queries, one per line. For each line it
scrapes the result page, prints the titled results with numbers, reads the
user's number from standard input and remembers the chosen video. It then
starts one `yt-dlp` download per chosen video. The downloads are meant to go
into `<home>/Videos/wrk/` (main.go:64-66), but as written the files land in
the current directory (see Findings). Everything lives in one Go file, `main.go`.

This project models the sequential logic of that file and proves what it
promises:

- `presentOptions` numbers the titled results 1, 2, … and maps each number
  back to the result's position.
- `awaitAnswerFromUser` returns the first input line that `strconv.Atoi`
  accepts, printing "Try again" for each line before it.
- The selection loop of `main` skips a line whose fetch failed. Otherwise it
  looks the answer up in the map, falling back to Go's zero value 0, and
  appends the chosen result.
- The string handling: the `+`-joined search query, the `ytInitialData` text
  cut out of the page, and the `yt-dlp -o` output path with `/` replaced by
  `-`.

Modules:

- `Wrappers`: `Option`.
- `GoStrings`: `strings.Index`, `Split`, `Join` and `ReplaceAll`, as the Go
  library defines them for a non-empty separator. `Substitute` is a
  character-by-character reference definition, and the lemmas tie the
  library functions to it.
- `GoStrconv`: `strconv.Atoi` for a 64-bit `int`, and `%d` formatting.
- `Selection`: `presentOptions`, `awaitAnswerFromUser` and the loop of `main`.
  The two Go functions and the loop are methods with loops, each proved
  against a specification function (`IndexMap` and `Listing`, `ReadAnswer`,
  `RunLines`).
- `Scrape`: the query string and the blob extraction of `getContentsFromYt`.
- `Download`: the output path and the `yt-dlp` argument list of each download
  goroutine.

Three behaviours of main.go are modelled as written:

- A page without the `var ytInitialData` marker makes `strings.Split(...)[1]`
  panic (main.go:104). The line is not skipped. `ExtractBlob` therefore
  requires the marker, and the selection loop has a `FetchPanicked` outcome
  that stops the program.
- The output path is sanitised as a whole, home-directory prefix included
  (main.go:64, 74-75). So `<home>/Videos/wrk/My Video` becomes
  `-home-u-Videos-wrk-My Video` (see Findings).
- An empty result list makes `videoOptions[0]` panic (main.go:56). An answer
  that is not a shown number picks `videoOptions[0]`, and when that result
  has no title its goroutine panics on `Runs[0]` (main.go:74). The model
  reports both as a panic (`panicked`, `None`), not as undefined behaviour.

## Model

| member | source | states |
|---|---|---|
| GoStrings.Index | main.go:104 | `strings.Index`: -1 or the position of an occurrence of the separator, with no occurrence before it |
| GoStrings.Split | main.go:103-107 | `strings.Split` always returns at least one piece. What the pieces are is stated by `JoinSplit`, `SplitPiecesFree` and `SplitRest` |
| GoStrings.Join | main.go:103-107 | `strings.Join`: the first piece is a prefix of the result. `JoinSplit` and `JoinSplitChar` state the rest |
| GoStrings.ReplaceAll | main.go:75 | `strings.ReplaceAll` keeps the length when the replacement is as long as the target, and leaves a string without the target unchanged. `ReplaceAllIsJoinSplit` and `ReplaceCharAt` state the rest |
| GoStrings.JoinSplit | main.go:106-107 | Splitting on a separator and joining with it gives the string back |
| GoStrings.SplitPiecesFree | main.go:104 | No piece returned by `strings.Split` contains the separator |
| GoStrings.SplitRest | main.go:104-107 | `Split(s, sep)[1]` exists exactly when `sep` occurs. It is the text between the first and second occurrence. Joining pieces 1.. with `sep` gives the text after the first occurrence ("" when there is none) |
| GoStrings.JoinSplitChar | main.go:90 | Splitting on one character and joining with `r` equals substituting `r` for every occurrence of that character |
| GoStrings.ReplaceAllIsJoinSplit | main.go:75 | `strings.ReplaceAll(s, old, new)` equals `Join(Split(s, old), new)` |
| GoStrings.ReplaceCharAt | main.go:75 | Replacing one character by another keeps the length, replaces every occurrence and leaves every other character in place |
| GoStrings.SubstituteDeletes | main.go:103 | Substituting "" for a character removes every occurrence of it |
| GoStrconv.Atoi | main.go:146 | An accepted line is an optional sign followed by digits only, and its value lies in the 64-bit range |
| GoStrconv.Format | main.go:132 | `%d` of an int: non-empty, starting with '-' exactly for a negative number, and otherwise digits only |
| GoStrconv.AtoiFormat | main.go:132 | Every number printed with `%d` reads back through `Atoi` as that number |
| GoStrconv.AtoiOutOfRange | main.go:146-149 | Digits beyond the 64-bit range are rejected, so they produce "Try again", not a clamped value |
| GoStrconv.AtoiRejects | main.go:146-149 | "", "x", a lone sign, surrounding spaces and underscores are rejected |
| GoStrconv.AtoiAccepts | main.go:146-152 | "1", "+7" and "-007" are accepted with their values |
| Selection.TitledPositions | main.go:126-129 | The positions that presentOptions numbers are in range and hold results with at least one title run |
| Selection.IndexMap | main.go:120-138 | The keys are exactly 1..T for T titled results. Every value is the position of a titled result |
| Selection.Listing | main.go:131-132 | One printed line per titled result |
| Selection.PresentOptions | main.go:120-139 | The loop builds exactly `IndexMap(options)`. It prints the header and then `Listing(options)` |
| Selection.IndexMapNumbersTitled | main.go:125-135 | Key k maps to the k-th titled position, as the running counter `idx` assigns it |
| Selection.TitledPositionsOrdered | main.go:126-135 | The titled positions are strictly increasing |
| Selection.TitledPositionsComplete | main.go:126-135 | Every titled result's position is among them |
| Selection.IndexMapProperties | main.go:120-138 | Keys are 1..T, and the map is empty when no result has a title. A larger key maps to a later position. Values are titled positions. The set of values is exactly the titled positions, so each titled result has exactly one number |
| Selection.OptionLine | main.go:132 | The line `Printf(" %d ) - %s\n", …)` prints: a leading space, the number as `%d` formats it (`Format(k)`), " ) - " and the title at the end |
| Selection.ListingLines | main.go:131-132 | The j-th printed line is " j+1 ) - " followed by the first title run of the j-th titled result |
| Selection.ChoosingPrintedNumber | main.go:132-134 | Typing the number printed beside a result parses to that number. That number is a key and selects that result |
| Selection.Lookup | main.go:54 | Reading the map: the stored index for a key, otherwise Go's zero value 0 |
| Selection.Resolve | main.go:54-56 | The indexing at main.go:56 panics exactly when the result list is empty. A shown number selects its titled result. Any other answer selects `videoOptions[0]` (Go's zero value) |
| Selection.ReadAnswer | main.go:141-157 | The value of the first line Atoi accepts; every earlier line is refused; 0 when no line is accepted |
| Selection.AwaitAnswer | main.go:141-157 | The loop prints one "Try again" per refused line. It returns the first accepted value, having read up to and including that line, or 0 after reading every line |
| Selection.AnswerAfterOneRefusal | main.go:143-156 | The lines "x" and "1" give one refusal and then 1 |
| Selection.Step | main.go:46-57 | One pass of the loop body keeps the videos chosen so far and appends at most one |
| Selection.StepFrame | main.go:46-57 | A step after a panic or for a failed fetch changes nothing. A page without the marker reads no input. Any step leaves a suffix of the unread input |
| Selection.StepShape | main.go:46-57 | A step panics exactly when the page had no marker (main.go:104) or gave no results. Otherwise it appends exactly one of that line's results, and a skipped or failed line appends none |
| Selection.PanicIsFinal | main.go:56 | After a panic, later lines change nothing |
| Selection.SelectVideos | main.go:43-57 | The loop of `main` computes exactly `RunLines`: failed fetches are skipped and answers are read in line order. It stops with `panicked` where `videoOptions[index]` is out of range |
| Selection.RunLinesShape | main.go:43-57 | The program panics exactly when some page had no marker (main.go:104) or some fetch gave an empty list. Otherwise one video is appended per successful line. The j-th video always comes from the j-th successful line |
| Selection.RunLinesPanics | main.go:43-57 | The panic half of `RunLinesShape`, by induction over the lines |
| Selection.RunLinesVideos | main.go:43-57 | The count and origin half of `RunLinesShape`, by induction over the lines |
| Selection.FailedLineSkipped | main.go:47-50 | A line whose fetch failed appends nothing and reads no user input |
| Selection.SuccessfulLineAppends | main.go:52-56 | A successful line with results appends exactly one video, the one the answer resolves to, or `videoOptions[0]` when the answer is not a key |
| Selection.SingleLineSelection | main.go:43-57 | One line with the single result "My Video" and the answer "1" selects that result and leaves no input |
| Scrape.QueryString | main.go:90 | The query has the line's length, no space, every space replaced by '+' and every other character unchanged |
| Scrape.Unwrapped | main.go:103 | The page with every newline removed |
| Scrape.ExtractBlob | main.go:103-107 | The extracted text holds no newline, no ";</script>" and no second marker |
| Scrape.ExtractBlobMatchesReference | main.go:103-107 | The extracted text is the text after the first '=' of the segment between the first and second marker, cut before the first ";</script>" |
| Scrape.NoAssignmentGivesEmpty | main.go:106-107 | When that segment has no '=', the extracted text is empty rather than an error |
| Scrape.HasMarkerIffSecondPiece | main.go:104 | The index [1] exists exactly when the marker occurs in the newline-free page |
| Download.WorkDir | main.go:64 | The working directory extends the home directory, with a '/' right after it and at its end |
| Download.Sanitise | main.go:75 | Same length, no '/', every '/' becomes '-' and every other character stays |
| Download.SanitiseFixes | main.go:75 | A path without '/' is unchanged |
| Download.SanitiseIdempotent | main.go:75 | Sanitising twice equals sanitising once |
| Download.SanitiseAppend | main.go:74-75 | Sanitising a concatenation sanitises each part |
| Download.OutputPath | main.go:64-75 | The path as written is sanitised home + "-Videos-wrk-" + sanitised title, with no '/' at all |
| Download.OutputPathOutsideWorkDir | main.go:64-75 | As written, the path never starts with the working directory created at main.go:66 |
| Download.SanitiseSlashes | main.go:74-75 | "/a/b/" becomes "-a-b-" when neither name holds a '/' |
| Download.OutputPathUnderHome | main.go:64-75 | For home "/home/<user>" and a title without '/', the path as written is "-home-<user>-Videos-wrk-<title>". The intended path is "/home/<user>/Videos/wrk/<title>" |
| Download.IntendedOutputPath | main.go:64-75 | The corrected path starts with the working directory. The part after it is the title with '/' replaced, the same length and otherwise unchanged |
| Download.IntendedDiffersFromWritten | main.go:64-75 | The corrected path and the path as written always differ |
| Download.DownloadCommand | main.go:74-75 | The `yt-dlp -o <path> <id>` arguments exist exactly for a titled result. The path is sanitised home + "-Videos-wrk-" + the sanitised first title run, so it has no '/'. The id is the video's |
| Download.ChosenByNumberDownloads | main.go:52-56 | A result chosen by a printed number always has a title, so its download starts |
| Download.DefaultChoiceCanPanic | main.go:54-56 | An answer that is not a key picks `videoOptions[0]`. When that result is untitled, no command can be built and the goroutine panics |
| Download.DefaultChoiceExample | main.go:120-138 | With an untitled first result, the map is {1: 1}, and 0 (the reader's answer when input runs out) is not a key |

## Findings

| source | as written | input that shows it | evidently intended | confidence | as-written member | corrected member |
|---|---|---|---|---|---|---|
| main.go:64-75 | `strings.ReplaceAll(outPath, "/", "-")` runs over the whole path, working directory included | home "/home/u", title "My Video" gives "-home-u-Videos-wrk-My Video", a file in the current directory and not in the directory that main.go:66 created | only the title is sanitised: "/home/u/Videos/wrk/My Video" | high (not executed) | Download.OutputPathOutsideWorkDir | Download.IntendedOutputPath |

`DownloadCommand` keeps the path as written, because it models what the
program passes to `yt-dlp`. `IntendedOutputPath` is the corrected
definition. `OutputPathUnderHome` and `IntendedDiffersFromWritten` compare
the two.

## Left out

- Network and response reading (`http.Get`, `io.ReadAll`, main.go:91-101): foreign I/O. The search URL of main.go:91 is only the query string with a fixed prefix.
- `gjson.Get` and `json.Unmarshal` (main.go:111-115): foreign libraries. The decoded result list of each line is an input (`Fetch`).
- The goroutine fan-out, `sync.WaitGroup` and the final "Done" (main.go:69-86): concurrency. Only what each goroutine computes before starting the process is modelled (`DownloadCommand`).
- Running `yt-dlp` and printing its error output (main.go:75-79): external process.
- `os.UserHomeDir`, `exists`/`os.Stat` and `os.MkdirAll` (main.go:59-67, 159-168): filesystem. The home directory is a parameter.
- Command-line checks, opening the query file and `os.Exit` (main.go:31-41): process set-up. The query file is a sequence of lines.
- `bufio.Scanner` details: trailing "\r" removal, the token size limit, and the buffering of the fresh stdin scanner that each `awaitAnswerFromUser` call creates. That buffering can swallow lines read ahead. The model lets each call read exactly the lines up to and including the accepted one.
- Terminal output: kept only as sequences of printed lines (`PresentOptions`, `AwaitAnswer`), not as a shared output stream.
- GoStrings.Split, GoStrings.ReplaceAll: the separator must not be empty. Go also defines an empty separator (split into UTF-8 sequences), but main.go never passes one.
- GoStrconv.Atoi: Go's `int` is taken to be 64 bits wide (64-bit targets only).
- Strings throughout (`GoStrings`, `GoStrconv`, `Scrape`, `Download`) are sequences of characters, not UTF-8 bytes. Every separator main.go uses is ASCII, so the two readings agree on them.
