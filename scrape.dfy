/**
 * The string handling of getContentsFromYt (main.go:89-118): the search
 * query built from a line of the query file, and the `ytInitialData` text cut
 * out of the result page. The HTTP request and the JSON decoding are not
 * modelled.
 */
module Scrape {
  import opened GoStrings

  const Marker := "var ytInitialData"
  const ScriptEnd := ";</script>"

  /**
   * The query of main.go:90: the line split on single spaces and joined with
   * '+', that is, every space replaced by '+'.
   */
  function QueryString(line: string): (q: string)
    ensures |q| == |line|
    ensures forall k :: 0 <= k < |line| ==> q[k] == if line[k] == ' ' then '+' else line[k]
    ensures ' ' !in q
  {
    JoinSplitChar(line, ' ', "+");
    SubstituteCharAt(line, ' ', '+');
    Join(Split(line, " "), "+")
  }

  /** The page body with every newline removed (main.go:103). */
  function Unwrapped(body: string): (f: string)
    ensures f == Substitute(body, '\n', "")
    ensures '\n' !in f
  {
    JoinSplitChar(body, '\n', "");
    SubstituteDeletes(body, '\n');
    Join(Split(body, "\n"), "")
  }

  /** `strings.Split(form, "var ytInitialData")[1]` does not panic. */
  predicate HasMarker(body: string)
  {
    Index(Unwrapped(body), Marker) >= 0
  }

  /**
   * main.go:103-107: drop the newlines, take the text between the first and
   * the second marker (or the end), keep what follows its first '=' and stop
   * before the first ";</script>". Without the marker the Go code panics on
   * the index [1], hence the precondition.
   */
  function ExtractBlob(body: string): (data: string)
    requires HasMarker(body)
    ensures '\n' !in data
    ensures Free(data, ScriptEnd)
    ensures Free(data, Marker)
  {
    var f := Unwrapped(body);
    SplitRest(f, Marker);
    var form := Split(f, Marker)[1];
    var spot := Split(form, "=")[1..];
    SplitRest(form, "=");
    PiecesFree(form, "=", Marker);
    var joined := Join(spot, "=");
    PiecesFree(joined, ScriptEnd, Marker);
    SplitFirst(joined, ScriptEnd);
    Split(joined, ScriptEnd)[0]
  }

  /**
   * Reference reading of the same extraction, one cut at a time: after the
   * first marker, before the next one, after the first '=', before
   * ";</script>".
   */
  function BlobReference(body: string): string
  {
    var segment := BeforeFirst(AfterFirst(Substitute(body, '\n', ""), Marker), Marker);
    BeforeFirst(AfterFirst(segment, "="), ScriptEnd)
  }

  lemma ExtractBlobMatchesReference(body: string)
    requires HasMarker(body)
    ensures ExtractBlob(body) == BlobReference(body)
  {
    var f := Unwrapped(body);
    SplitRest(f, Marker);
    var form := Split(f, Marker)[1];
    SplitRest(form, "=");
    SplitFirst(Join(Split(form, "=")[1..], "="), ScriptEnd);
  }

  /** A page with no '=' after the marker gives the empty text, not an error. */
  lemma NoAssignmentGivesEmpty(body: string)
    requires HasMarker(body)
    requires Index(BeforeFirst(AfterFirst(Unwrapped(body), Marker), Marker), "=") < 0
    ensures ExtractBlob(body) == ""
  {
    ExtractBlobMatchesReference(body);
  }

  /** The marker is present exactly when the split at line 104 has a second piece. */
  lemma HasMarkerIffSecondPiece(body: string)
    ensures HasMarker(body) <==> |Split(Unwrapped(body), Marker)| > 1
  {
  }
}
