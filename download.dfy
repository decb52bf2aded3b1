/**
 * What each download goroutine of main.go (lines 64 and 72-82) computes
 * before it starts yt-dlp: the output path and the argument list. Running
 * the process, the goroutines and the WaitGroup are not modelled.
 */
module Download {
  import opened Wrappers
  import opened GoStrings
  import opened Selection

  /** The working directory of main.go:64, under the user's home directory. */
  function WorkDir(home: string): (dir: string)
    ensures home <= dir && |dir| == |home| + 12
    ensures dir[|home|] == '/' && dir[|dir| - 1] == '/'
  {
    home + "/Videos/wrk/"
  }

  /** `strings.ReplaceAll(p, "/", "-")` (main.go:75). */
  function Sanitise(p: string): (r: string)
    ensures |r| == |p|
    ensures forall k :: 0 <= k < |p| ==> r[k] == if p[k] == '/' then '-' else p[k]
    ensures '/' !in r
  {
    ReplaceCharAt(p, '/', '-');
    ReplaceAll(p, "/", "-")
  }

  /** A path with no '/' is left as it is. */
  lemma SanitiseFixes(p: string)
    requires '/' !in p
    ensures Sanitise(p) == p
  {
    assert forall k :: 0 <= k < |p| ==> Sanitise(p)[k] == p[k];
  }

  /** Sanitising twice is sanitising once. */
  lemma SanitiseIdempotent(p: string)
    ensures Sanitise(Sanitise(p)) == Sanitise(p)
  {
    SanitiseFixes(Sanitise(p));
  }

  /** Sanitising works piece by piece. */
  lemma SanitiseAppend(a: string, b: string)
    ensures Sanitise(a + b) == Sanitise(a) + Sanitise(b)
  {
    var whole, parts := Sanitise(a + b), Sanitise(a) + Sanitise(b);
    forall k | 0 <= k < |a + b| ensures whole[k] == parts[k] {
      if k < |a| { assert (a + b)[k] == a[k]; } else { assert (a + b)[k] == b[k - |a|]; }
    }
  }

  lemma SanitiseDirName(sub: string)
    requires sub == "/Videos/wrk/"
    ensures Sanitise(sub) == "-Videos-wrk-"
  {
    var s := Sanitise(sub);
    assert |s| == 12;
    assert sub[0] == '/' && sub[7] == '/' && sub[11] == '/';
    assert s[0] == '-' && s[7] == '-' && s[11] == '-';
    assert s[1] == 'V' && s[2] == 'i' && s[3] == 'd' && s[4] == 'e' && s[5] == 'o' && s[6] == 's';
    assert s[8] == 'w' && s[9] == 'r' && s[10] == 'k';
  }

  /** "/a/b/" becomes "-a-b-" when neither name holds a '/'. */
  lemma SanitiseSlashes(a: string, b: string)
    requires '/' !in a && '/' !in b
    ensures Sanitise("/" + a + "/" + b + "/") == "-" + a + "-" + b + "-"
  {
    var p := "/" + a + "/" + b + "/";
    var s, q := Sanitise(p), "-" + a + "-" + b + "-";
    forall k | 0 <= k < |p| ensures s[k] == q[k] {
      if k == 0 || k == |a| + 1 || k == |p| - 1 {
      } else if k <= |a| {
        assert p[k] == a[k - 1] && q[k] == a[k - 1];
      } else {
        assert p[k] == b[k - |a| - 2] && q[k] == b[k - |a| - 2];
      }
    }
  }

  /**
   * The path passed to `yt-dlp -o` as main.go:74-75 build it: the
   * replacement runs over the working directory AND the title, so every '/'
   * of the directory becomes '-' as well.
   */
  function OutputPath(home: string, title: string): (p: string)
    ensures p == Sanitise(home) + "-Videos-wrk-" + Sanitise(title)
    ensures '/' !in p
  {
    var dir, sub := WorkDir(home), "/Videos/wrk/";
    SanitiseAppend(dir, title);
    SanitiseAppend(home, sub);
    SanitiseDirName(sub);
    assert Sanitise(dir) == Sanitise(home) + "-Videos-wrk-";
    assert Sanitise(dir + title) == Sanitise(home) + "-Videos-wrk-" + Sanitise(title);
    Sanitise(dir + title)
  }

  /**
   * As written, the path never lies in the working directory created at
   * main.go:66: that directory's name holds a '/' and the path holds none.
   */
  lemma OutputPathOutsideWorkDir(home: string, title: string)
    ensures !(WorkDir(home) <= OutputPath(home, title))
  {
    var dir, p := WorkDir(home), OutputPath(home, title);
    assert dir[|home|] == '/';
    if |home| < |p| {
      assert p[|home|] != '/';
    }
  }

  /**
   * For the home directory "/home/<user>" and a title without '/', the
   * path as written is "-home-<user>-Videos-wrk-<title>", and the intended
   * one "/home/<user>/Videos/wrk/<title>".
   */
  lemma OutputPathUnderHome(user: string, title: string)
    requires '/' !in user && '/' !in title
    ensures OutputPath("/home/" + user, title) == "-home-" + user + "-Videos-wrk-" + title
    ensures IntendedOutputPath("/home/" + user, title) == "/home/" + user + "/Videos/wrk/" + title
  {
    var h := "/home/";
    SanitiseAppend(h, user);
    SanitiseHomeDir(h);
    SanitiseFixes(user);
    SanitiseFixes(title);
  }

  lemma SanitiseHomeDir(h: string)
    requires h == "/home/"
    ensures Sanitise(h) == "-home-"
  {
    var s := Sanitise(h);
    assert h[0] == '/' && h[5] == '/';
    assert s[0] == '-' && s[1] == 'h' && s[2] == 'o' && s[3] == 'm' && s[4] == 'e' && s[5] == '-';
  }

  /**
   * The evidently intended output path: only the title is sanitised, so the
   * file lands directly in the working directory, whatever the title holds.
   */
  function IntendedOutputPath(home: string, title: string): (p: string)
    ensures WorkDir(home) <= p
    ensures |p| == |WorkDir(home)| + |title|
    ensures '/' !in p[|WorkDir(home)|..]
    ensures forall k :: 0 <= k < |title| && title[k] != '/' ==> p[|WorkDir(home)| + k] == title[k]
  {
    var p := WorkDir(home) + Sanitise(title);
    assert p[|WorkDir(home)|..] == Sanitise(title);
    p
  }

  /** The intended path keeps the '/' after the home directory, so the two paths always differ. */
  lemma IntendedDiffersFromWritten(home: string, title: string)
    ensures IntendedOutputPath(home, title) != OutputPath(home, title)
  {
  }

  /**
   * The arguments of `exec.Command("yt-dlp", "-o", path, id)` (main.go:74-75)
   * for one chosen result; None where `Title.Runs[0]` panics because the
   * result has no title.
   */
  function DownloadCommand(home: string, vd: VideoInfo): (argv: Option<seq<string>>)
    ensures argv.Some? <==> Titled(vd)
    ensures argv.Some? ==> |argv.value| == 4 && argv.value[..2] == ["yt-dlp", "-o"]
    ensures argv.Some? ==> '/' !in argv.value[2] && argv.value[3] == vd.videoId
    ensures argv.Some? ==> argv.value[2] == Sanitise(home) + "-Videos-wrk-" + Sanitise(vd.runs[0])
  {
    if |vd.runs| == 0 then None
    else Some(["yt-dlp", "-o", OutputPath(home, vd.runs[0]), vd.videoId])
  }

  /** A result chosen by one of the printed numbers can always be downloaded. */
  lemma ChosenByNumberDownloads(home: string, options: seq<VideoInfo>, answer: int)
    requires answer in IndexMap(options)
    ensures Resolve(options, answer).Some?
    ensures DownloadCommand(home, Resolve(options, answer).value).Some?
  {
  }

  /**
   * An answer that is not a printed number picks the first result, and when
   * that result has no title its goroutine panics on `Runs[0]`.
   */
  lemma DefaultChoiceCanPanic(home: string, options: seq<VideoInfo>, answer: int)
    requires options != [] && !Titled(options[0])
    requires answer !in IndexMap(options)
    ensures Resolve(options, answer) == Some(options[0])
    ensures DownloadCommand(home, Resolve(options, answer).value) == None
  {
  }

  /** Such lists exist: an untitled first result and the answer 0, which is never a key. */
  lemma DefaultChoiceExample()
    ensures var options := [VideoInfo("a", []), VideoInfo("b", ["B"])];
      && 0 !in IndexMap(options) && !Titled(options[0])
      && IndexMap(options) == map[1 := 1]
  {
  }
}
