/**
 * The Selection Phase of main.go: presentOptions numbers the titled search
 * results, awaitAnswerFromUser reads the user's number, and the loop in main
 * looks the number up and appends the chosen result to `videos`.
 */
module Selection {
  import opened Wrappers
  import opened GoStrconv

  /**
   * One decoded search result: `VideoRenderer.VideoId` and the `Text` of each
   * element of `VideoRenderer.Title.Runs`.
   */
  datatype VideoInfo = VideoInfo(videoId: string, runs: seq<string>)

  /** Only results with at least one title run are shown. */
  predicate Titled(v: VideoInfo)
  {
    |v.runs| > 0
  }

  /** The positions of the titled results, in list order. */
  function TitledPositions(options: seq<VideoInfo>): (ps: seq<nat>)
    ensures |ps| <= |options|
    ensures forall j :: 0 <= j < |ps| ==> ps[j] < |options| && Titled(options[ps[j]])
    decreases |options|
  {
    if options == [] then []
    else
      var n := |options| - 1;
      var prefix := TitledPositions(options[..n]);
      assert forall j :: 0 <= j < |prefix| ==> options[..n][prefix[j]] == options[prefix[j]];
      prefix + (if Titled(options[n]) then [n] else [])
  }

  /**
   * The map presentOptions returns: the number shown to the user (1, 2, ...)
   * to the position of that result in the list, built as the loop builds it.
   */
  function IndexMap(options: seq<VideoInfo>): (m: map<int, int>)
    ensures forall k :: k in m <==> 1 <= k <= |TitledPositions(options)|
    ensures forall k :: k in m ==> 0 <= m[k] < |options| && Titled(options[m[k]])
    decreases |options|
  {
    if options == [] then map[]
    else
      var n := |options| - 1;
      var m := IndexMap(options[..n]);
      assert forall k :: k in m ==> options[..n][m[k]] == options[m[k]];
      assert options[..n + 1][..n] == options[..n];
      if Titled(options[n]) then m[|TitledPositions(options[..n])| + 1 := n] else m
  }

  const Header := "Choose one of the titles by their number: "

  /** The line printed for the result numbered `k`. */
  function OptionLine(k: int, title: string): (line: string)
    ensures |line| == |Format(k)| + 6 + |title| && line[0] == ' '
    ensures line[1..1 + |Format(k)|] == Format(k)
    ensures line[1 + |Format(k)|..6 + |Format(k)|] == " ) - "
    ensures line[|line| - |title|..] == title
  {
    " " + Format(k) + " ) - " + title
  }

  /** The numbered lines presentOptions prints after the header, one per titled result. */
  function Listing(options: seq<VideoInfo>): (lines: seq<string>)
    ensures |lines| == |TitledPositions(options)|
    decreases |options|
  {
    if options == [] then []
    else
      var n := |options| - 1;
      Listing(options[..n])
        + if Titled(options[n])
          then [OptionLine(|TitledPositions(options[..n])| + 1, options[n].runs[0])]
          else []
  }

  /** One more result extends the positions, the map and the listing as one loop step does. */
  lemma PresentStep(options: seq<VideoInfo>, i: nat)
    requires i < |options|
    ensures var before, after := options[..i], options[..i + 1];
      var t := |TitledPositions(before)|;
      if Titled(options[i]) then
        && TitledPositions(after) == TitledPositions(before) + [i]
        && IndexMap(after) == IndexMap(before)[t + 1 := i]
        && Listing(after) == Listing(before) + [OptionLine(t + 1, options[i].runs[0])]
      else
        && TitledPositions(after) == TitledPositions(before)
        && IndexMap(after) == IndexMap(before)
        && Listing(after) == Listing(before)
  {
    assert options[..i + 1][..i] == options[..i];
    assert options[..i + 1][i] == options[i];
  }

  /** presentOptions (main.go:120-139), with what it prints as `out`. */
  method PresentOptions(options: seq<VideoInfo>) returns (ret: map<int, int>, out: seq<string>)
    ensures ret == IndexMap(options)
    ensures out == [Header] + Listing(options)
  {
    ret := map[];
    out := [Header];
    var idx := 0;
    for i := 0 to |options|
      invariant idx == |TitledPositions(options[..i])|
      invariant ret == IndexMap(options[..i])
      invariant out == [Header] + Listing(options[..i])
    {
      PresentStep(options, i);
      if |options[i].runs| != 0 {
        var title := options[i].runs[0];
        out := out + [OptionLine(idx + 1, title)];
        ret := ret[idx + 1 := i];
        idx := idx + 1;
      }
    }
    assert options[..|options|] == options;
  }

  /** The map sends k to the k-th titled position, for exactly the keys 1..T. */
  lemma {:induction false} IndexMapNumbersTitled(options: seq<VideoInfo>)
    ensures forall k :: k in IndexMap(options) <==> 1 <= k <= |TitledPositions(options)|
    ensures forall k :: k in IndexMap(options) ==> IndexMap(options)[k] == TitledPositions(options)[k - 1]
    decreases |options|
  {
    if options != [] {
      var n := |options| - 1;
      IndexMapNumbersTitled(options[..n]);
      PresentStep(options, n);
      assert options[..n + 1] == options;
    }
  }

  /** The titled positions are strictly increasing. */
  lemma {:induction false} TitledPositionsOrdered(options: seq<VideoInfo>)
    ensures forall j, j' :: 0 <= j < j' < |TitledPositions(options)| ==>
      TitledPositions(options)[j] < TitledPositions(options)[j']
    decreases |options|
  {
    if options != [] {
      var n := |options| - 1;
      TitledPositionsOrdered(options[..n]);
      PresentStep(options, n);
      assert options[..n + 1] == options;
    }
  }

  /** Every titled result has its position among the titled positions. */
  lemma {:induction false} TitledPositionsComplete(options: seq<VideoInfo>)
    ensures forall i :: 0 <= i < |options| && Titled(options[i]) ==> i in TitledPositions(options)
    decreases |options|
  {
    if options != [] {
      var n := |options| - 1;
      var before := options[..n];
      TitledPositionsComplete(before);
      PresentStep(options, n);
      assert options[..n + 1] == options;
      forall i | 0 <= i < n && Titled(options[i])
        ensures i in TitledPositions(options)
      {
        assert before[i] == options[i];
        assert i in TitledPositions(before);
      }
    }
  }

  /**
   * What presentOptions promises of its map: the keys are exactly 1..T for
   * T titled results (none when no result has a title), a larger number
   * goes to a later position, every value is the position of a titled
   * result, and every titled result is the value of exactly one key.
   */
  lemma IndexMapProperties(options: seq<VideoInfo>)
    ensures var m, t := IndexMap(options), |TitledPositions(options)|;
      && (forall k :: k in m <==> 1 <= k <= t)
      && (forall k, k' :: k in m && k' in m && k < k' ==> m[k] < m[k'])
      && (forall k :: k in m ==> 0 <= m[k] < |options| && Titled(options[m[k]]))
      && m.Values == set i | 0 <= i < |options| && Titled(options[i])
      && ((forall i :: 0 <= i < |options| ==> !Titled(options[i])) ==> m == map[])
  {
    var m, ps := IndexMap(options), TitledPositions(options);
    IndexMapNumbersTitled(options);
    TitledPositionsOrdered(options);
    TitledPositionsComplete(options);
    forall i | 0 <= i < |options| && Titled(options[i])
      ensures i in m.Values
    {
      var j :| 0 <= j < |ps| && ps[j] == i;
      assert m[j + 1] == i;
    }
    if |ps| > 0 {
      assert Titled(options[ps[0]]);
    } else {
      assert m.Keys == {};
    }
  }

  /**
   * `indicies[userInput]` (main.go:54): Go gives the zero value 0 for a
   * number that is not a key.
   */
  function Lookup(m: map<int, int>, k: int): (v: int)
    ensures k in m ==> v == m[k]
    ensures k !in m ==> v == 0
    ensures v in m.Values || v == 0
  {
    if k in m then m[k] else 0
  }

  /**
   * `videoOptions[index]` (main.go:54-56): the chosen result, or None where
   * the index is out of range and the program panics.
   */
  function Resolve(options: seq<VideoInfo>, answer: int): (r: Option<VideoInfo>)
    ensures r.None? <==> options == []
    ensures answer in IndexMap(options) ==>
      r == Some(options[IndexMap(options)[answer]]) && Titled(r.value)
    ensures answer !in IndexMap(options) && options != [] ==> r == Some(options[0])
    ensures r.Some? ==> r.value in options
  {
    var index := Lookup(IndexMap(options), answer);
    if 0 <= index < |options| then Some(options[index]) else None
  }

  /** Typing the number printed beside a result selects that result. */
  lemma ChoosingPrintedNumber(options: seq<VideoInfo>, k: int)
    requires 1 <= k <= |TitledPositions(options)|
    requires |options| <= MaxInt
    ensures Listing(options)[k - 1] == OptionLine(k, options[TitledPositions(options)[k - 1]].runs[0])
    ensures Atoi(Format(k)) == Some(k)
    ensures k in IndexMap(options) && Resolve(options, k) == Some(options[TitledPositions(options)[k - 1]])
  {
    ListingLines(options);
    AtoiFormat(k);
    IndexMapNumbersTitled(options);
  }

  /** The k-th listed line shows number k+1 and the first title run of the k-th titled result. */
  lemma {:induction false} ListingLines(options: seq<VideoInfo>)
    ensures |Listing(options)| == |TitledPositions(options)|
    ensures forall j :: 0 <= j < |Listing(options)| ==>
      Listing(options)[j] == OptionLine(j + 1, options[TitledPositions(options)[j]].runs[0])
    decreases |options|
  {
    if options != [] {
      var n := |options| - 1;
      var before := options[..n];
      ListingLines(before);
      PresentStep(options, n);
      assert options[..n + 1] == options;
      var ps, lines := TitledPositions(before), Listing(before);
      forall j | 0 <= j < |ps|
        ensures Listing(options)[j] == OptionLine(j + 1, options[TitledPositions(options)[j]].runs[0])
      {
        assert Listing(options)[j] == lines[j];
        assert TitledPositions(options)[j] == ps[j];
        assert before[ps[j]] == options[ps[j]];
      }
    }
  }

  const TryAgain := "Try again"

  /** What awaitAnswerFromUser returns, and how many lines it refuses first. */
  datatype Answer = Answer(value: int, rejected: nat)

  /**
   * awaitAnswerFromUser over the lines still to come: the value of the first
   * line Atoi accepts, after one refusal per earlier line; 0 when no line is
   * accepted.
   */
  function ReadAnswer(lines: seq<string>): (a: Answer)
    ensures a.rejected <= |lines|
    ensures forall j :: 0 <= j < a.rejected ==> Atoi(lines[j]).None?
    ensures a.rejected < |lines| ==> Atoi(lines[a.rejected]) == Some(a.value)
    ensures a.rejected == |lines| ==> a.value == 0
  {
    if lines == [] then Answer(0, 0)
    else match Atoi(lines[0])
      case Some(v) => Answer(v, 0)
      case None => var a := ReadAnswer(lines[1..]); Answer(a.value, a.rejected + 1)
  }

  /** How many lines awaitAnswerFromUser takes: the refused ones and the accepted one. */
  function Consumed(lines: seq<string>): (n: nat)
    ensures n <= |lines|
  {
    var a := ReadAnswer(lines);
    if a.rejected < |lines| then a.rejected + 1 else |lines|
  }

  /**
   * awaitAnswerFromUser (main.go:141-157) reading `lines`: `out` holds one
   * "Try again" per refused line.
   */
  method AwaitAnswer(lines: seq<string>) returns (ans: int, consumed: nat, out: seq<string>)
    ensures |out| <= consumed <= |lines|
    ensures forall j :: 0 <= j < |out| ==> out[j] == TryAgain
    ensures forall j :: 0 <= j < |out| ==> Atoi(lines[j]).None?
    ensures |out| < |lines| ==> Atoi(lines[|out|]) == Some(ans) && consumed == |out| + 1
    ensures |out| == |lines| ==> ans == 0 && consumed == |lines|
    ensures Answer(ans, |out|) == ReadAnswer(lines) && consumed == Consumed(lines)
  {
    ans, consumed, out := 0, 0, [];
    while consumed < |lines|
      invariant consumed <= |lines|
      invariant |out| == consumed
      invariant forall j :: 0 <= j < |out| ==> out[j] == TryAgain
      invariant forall j :: 0 <= j < consumed ==> Atoi(lines[j]).None?
    {
      var input := Atoi(lines[consumed]);
      consumed := consumed + 1;
      if input.None? {
        out := out + [TryAgain];
      } else {
        ans := input.value;
        break;
      }
    }
  }

  /** The two lines "x" and "1": one "Try again", then 1. */
  lemma AnswerAfterOneRefusal()
    ensures ReadAnswer(["x", "1"]) == Answer(1, 1)
  {
  }

  /**
   * What getContentsFromYt gave for one line of the query file: the decoded
   * results, an error (network, decoding), or a panic on a page without the
   * `var ytInitialData` marker (main.go:104, see Scrape.HasMarker).
   */
  datatype Fetch = Fetched(options: seq<VideoInfo>) | FetchFailed | FetchPanicked

  /**
   * The state of the selection loop: the chosen results so far, the user's
   * input lines not read yet, and whether the program has panicked on an
   * index out of range.
   */
  datatype Run = Run(videos: seq<VideoInfo>, input: seq<string>, panicked: bool)

  /** One iteration of the loop body of main.go:46-57. */
  function Step(r: Run, f: Fetch): (s: Run)
    ensures r.videos <= s.videos && |s.videos| <= |r.videos| + 1
  {
    if r.panicked then r
    else match f
      case FetchFailed => r
      case FetchPanicked => Run(r.videos, r.input, true)
      case Fetched(options) =>
        var rest := r.input[Consumed(r.input)..];
        match Resolve(options, ReadAnswer(r.input).value)
        case Some(v) => Run(r.videos + [v], rest, false)
        case None => Run(r.videos, rest, true)
  }

  /** The loop over the query file's lines, from no videos and the whole of `input`. */
  function RunLines(fetches: seq<Fetch>, input: seq<string>): Run
    decreases |fetches|
  {
    if fetches == [] then Run([], input, false)
    else Step(RunLines(fetches[..|fetches| - 1], input), fetches[|fetches| - 1])
  }

  /** The result lists of the lines whose fetch succeeded, in line order. */
  function Successes(fetches: seq<Fetch>): (s: seq<seq<VideoInfo>>)
    ensures |s| <= |fetches|
    decreases |fetches|
  {
    if fetches == [] then []
    else
      var last := fetches[|fetches| - 1];
      Successes(fetches[..|fetches| - 1]) + if last.Fetched? then [last.options] else []
  }

  /** Once the program has panicked, later lines change nothing. */
  lemma {:induction false} PanicIsFinal(fetches: seq<Fetch>, input: seq<string>, i: nat)
    requires i <= |fetches|
    requires RunLines(fetches[..i], input).panicked
    ensures RunLines(fetches, input) == RunLines(fetches[..i], input)
    decreases |fetches| - i
  {
    if i < |fetches| {
      assert fetches[..i + 1][..i] == fetches[..i];
      PanicIsFinal(fetches, input, i + 1);
    } else {
      assert fetches[..i] == fetches;
    }
  }

  lemma LoopStep(fetches: seq<Fetch>, input: seq<string>, i: nat)
    requires i < |fetches|
    ensures RunLines(fetches[..i + 1], input) == Step(RunLines(fetches[..i], input), fetches[i])
  {
    assert fetches[..i + 1][..i] == fetches[..i];
  }

  /**
   * The selection loop of main (main.go:43-57) over the fetch outcome of each
   * line: a failed fetch is skipped, a page without the marker panics,
   * otherwise the options are presented, an answer is read and the chosen
   * result appended. `rest` is the user input left unread; `panicked` is set
   * on that page or where `videoOptions[index]` is out of range.
   */
  method SelectVideos(fetches: seq<Fetch>, input: seq<string>)
    returns (videos: seq<VideoInfo>, rest: seq<string>, panicked: bool)
    ensures Run(videos, rest, panicked) == RunLines(fetches, input)
  {
    videos, rest, panicked := [], input, false;
    var i := 0;
    while i < |fetches|
      invariant i <= |fetches|
      invariant Run(videos, rest, panicked) == RunLines(fetches[..i], input)
      invariant !panicked
    {
      LoopStep(fetches, input, i);
      match fetches[i] {
        case FetchFailed =>
        case FetchPanicked =>
          panicked := true;
          PanicIsFinal(fetches, input, i + 1);
          return;
        case Fetched(videoOptions) =>
          var indices, _ := PresentOptions(videoOptions);
          ghost var pending := rest;
          var userInput, consumed, _ := AwaitAnswer(rest);
          rest := rest[consumed..];
          var index := if userInput in indices then indices[userInput] else 0;
          ghost var chosen := Resolve(videoOptions, ReadAnswer(pending).value);
          if index >= |videoOptions| {
            assert chosen == None;
            panicked := true;
            PanicIsFinal(fetches, input, i + 1);
            return;
          }
          assert chosen == Some(videoOptions[index]);
          videos := videos + [videoOptions[index]];
      }
      i := i + 1;
    }
    assert fetches[..i] == fetches;
  }

  /**
   * What the loop promises: the program panics exactly when some line's
   * page had no marker or its fetch succeeded with no results at all; otherwise it appends exactly one
   * result per successful line and none for a failed one; and the j-th
   * chosen result always comes from the j-th successful line.
   */
  lemma {:induction false} RunLinesShape(fetches: seq<Fetch>, input: seq<string>)
    ensures var r := RunLines(fetches, input);
      && (r.panicked <==> exists j :: 0 <= j < |fetches| && Fatal(fetches[j]))
      && (!r.panicked ==> |r.videos| == |Successes(fetches)|)
      && |r.videos| <= |Successes(fetches)|
      && (forall j :: 0 <= j < |r.videos| ==> r.videos[j] in Successes(fetches)[j])
  {
    RunLinesPanics(fetches, input);
    RunLinesVideos(fetches, input);
  }

  /** A fetch outcome on which the program panics: a page without the marker, or no results. */
  predicate Fatal(f: Fetch)
  {
    f.FetchPanicked? || (f.Fetched? && f.options == [])
  }

  /** What one step does to the panic flag and to the chosen results. */
  lemma StepShape(r: Run, f: Fetch)
    ensures Step(r, f).panicked <==> r.panicked || Fatal(f)
    ensures !r.panicked && f.Fetched? && f.options != [] ==>
      |Step(r, f).videos| == |r.videos| + 1 && Step(r, f).videos[|r.videos|] in f.options
    ensures r.panicked || !f.Fetched? || f.options == [] ==> Step(r, f).videos == r.videos
  {
    if !r.panicked && f.Fetched? {
      var v := Resolve(f.options, ReadAnswer(r.input).value);
      if f.options != [] {
        assert v.Some? && v.value in f.options;
      }
    }
  }

  /**
   * A step after a panic or on a failed fetch changes nothing; any other step
   * only consumes input, so what is left is a suffix of what was there.
   */
  lemma StepFrame(r: Run, f: Fetch)
    ensures r.panicked || f.FetchFailed? ==> Step(r, f) == r
    ensures f.FetchPanicked? ==> Step(r, f).input == r.input
    ensures var s := Step(r, f);
      |s.input| <= |r.input| && s.input == r.input[|r.input| - |s.input|..]
  {
  }

  lemma {:induction false} RunLinesPanics(fetches: seq<Fetch>, input: seq<string>)
    ensures RunLines(fetches, input).panicked <==> exists j :: 0 <= j < |fetches| && Fatal(fetches[j])
    decreases |fetches|
  {
    if fetches != [] {
      var n := |fetches| - 1;
      var prefix, last := fetches[..n], fetches[n];
      RunLinesPanics(prefix, input);
      var before := RunLines(prefix, input);
      StepShape(before, last);
      assert RunLines(fetches, input) == Step(before, last);
      if Fatal(last) {
        assert Fatal(fetches[n]);
      } else if exists j :: 0 <= j < n && Fatal(prefix[j]) {
        var j :| 0 <= j < n && Fatal(prefix[j]);
        assert Fatal(fetches[j]);
      } else {
        forall j | 0 <= j < |fetches| ensures !Fatal(fetches[j]) {
          if j < n { assert fetches[j] == prefix[j]; }
        }
      }
    }
  }

  lemma {:induction false} RunLinesVideos(fetches: seq<Fetch>, input: seq<string>)
    ensures var r := RunLines(fetches, input);
      && (!r.panicked ==> |r.videos| == |Successes(fetches)|)
      && |r.videos| <= |Successes(fetches)|
      && (forall j :: 0 <= j < |r.videos| ==> r.videos[j] in Successes(fetches)[j])
    decreases |fetches|
  {
    if fetches != [] {
      var n := |fetches| - 1;
      var prefix, last := fetches[..n], fetches[n];
      RunLinesVideos(prefix, input);
      var before := RunLines(prefix, input);
      StepShape(before, last);
      assert RunLines(fetches, input) == Step(before, last);
      assert Successes(fetches) == Successes(prefix) + if last.Fetched? then [last.options] else [];
    }
  }

  /** A line whose fetch fails adds nothing and leaves the user input unread. */
  lemma FailedLineSkipped(fetches: seq<Fetch>, input: seq<string>)
    ensures RunLines(fetches + [FetchFailed], input) == RunLines(fetches, input)
  {
  }

  /**
   * A successful line appends exactly one result when its list is not empty:
   * the one numbered by the user's answer, or the first result when the
   * answer is not a shown number (Go's zero value for a missing key).
   */
  lemma SuccessfulLineAppends(fetches: seq<Fetch>, input: seq<string>, options: seq<VideoInfo>)
    requires !RunLines(fetches, input).panicked
    requires options != []
    ensures var before, after := RunLines(fetches, input), RunLines(fetches + [Fetched(options)], input);
      var answer := ReadAnswer(before.input).value;
      && !after.panicked
      && after.input == before.input[Consumed(before.input)..]
      && after.videos == before.videos + [options[Lookup(IndexMap(options), answer)]]
      && (answer !in IndexMap(options) ==> after.videos == before.videos + [options[0]])
  {
  }

  /**
   * The single line "test query" whose search gives the one result
   * "My Video" with id "abc123", answered with "1": that result is chosen and
   * no input is left.
   */
  lemma SingleLineSelection()
    ensures var video := VideoInfo("abc123", ["My Video"]);
      RunLines([Fetched([video])], ["1"]) == Run([video], [], false)
  {
  }
}
