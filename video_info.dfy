/**
 * Text handling around the download: `get_video_url` (playback URL and title
 * from the `&`-separated metadata body), the output filename chosen in `main`,
 * and `extract_video_id`.
 *
 * `urllib.parse.unquote` and the query-string branch of `extract_video_id`
 * (`urlparse` + `parse_qs`) are parameters: every property below holds
 * whatever they compute.
 */
module VideoInfo {
  import opened Wrappers
  import opened Text

  // ---------------------------------------------------------------------------
  // get_video_url

  /** `(video, title)` as `get_video_url` returns them, each `None` when not found. */
  datatype Found = Found(video: Option<string>, title: Option<string>)

  /** Python truthiness of an optional string: `None` and `""` are false. */
  predicate Truthy(o: Option<string>) {
    o.Some? && o.value != ""
  }

  predicate IsTitlePiece(p: string) {
    StartsWith(p, "title=")
  }

  predicate IsVideoPiece(p: string) {
    Contains(p, "videoplayback")
  }

  /** `unquote(content.split('=')[-1])`. */
  function TitleOf(unquote: string -> string, p: string): string {
    unquote(LastPiece(p, '='))
  }

  /** `unquote(content).split("|")[-1]`. */
  function VideoOf(unquote: string -> string, p: string): string {
    LastPiece(unquote(p), '|')
  }

  /** What the loop body looks at in one piece: the two tests and the two values they would store. */
  datatype Piece = Piece(isTitle: bool, isVideo: bool, title: string, video: string)

  function Classify(unquote: string -> string, p: string): Piece {
    Piece(IsTitlePiece(p), IsVideoPiece(p), TitleOf(unquote, p), VideoOf(unquote, p))
  }

  function ClassifyAll(unquote: string -> string, pieces: seq<string>): (cs: seq<Piece>)
    ensures |cs| == |pieces|
    ensures forall k :: 0 <= k < |pieces| ==> cs[k] == Classify(unquote, pieces[k])
  {
    seq(|pieces|, k requires 0 <= k < |pieces| => Classify(unquote, pieces[k]))
  }

  /**
   * The loop body on one piece, before the `break` test: at most one field
   * changes, a truthy field never does, and a changed field holds the piece's
   * value for it.
   */
  function Visit(acc: Found, c: Piece): (r: Found)
    ensures r.title == acc.title || r.video == acc.video
    ensures Truthy(acc.title) ==> r.title == acc.title
    ensures Truthy(acc.video) ==> r.video == acc.video
    ensures c.isTitle && !Truthy(acc.title) ==> r.title == Some(c.title)
    ensures r.title != acc.title ==> c.isTitle && r.title == Some(c.title)
    ensures r.video != acc.video ==> c.isVideo && r.video == Some(c.video)
  {
    if c.isTitle && !Truthy(acc.title) then acc.(title := Some(c.title))
    else if c.isVideo && !Truthy(acc.video) then acc.(video := Some(c.video))
    else acc
  }

  /**
   * The `for` loop, leaving it once both fields are truthy: a truthy field is
   * kept, and any other field found comes from a piece that passed its test.
   */
  function Scan(cs: seq<Piece>, acc: Found): (r: Found)
    ensures Truthy(acc.title) ==> r.title == acc.title
    ensures Truthy(acc.video) ==> r.video == acc.video
    ensures r.title == acc.title || exists k :: 0 <= k < |cs| && cs[k].isTitle && r.title == Some(cs[k].title)
    ensures r.video == acc.video || exists k :: 0 <= k < |cs| && cs[k].isVideo && r.video == Some(cs[k].video)
    decreases |cs|
  {
    if cs == [] then acc
    else
      var acc' := Visit(acc, cs[0]);
      if Truthy(acc'.video) && Truthy(acc'.title) then acc'
      else
        var r := Scan(cs[1..], acc');
        assert forall k :: 0 <= k < |cs[1..]| ==> cs[1..][k] == cs[k + 1];
        r
  }

  /** A found title is the unquoted value of some `title=` piece. */
  predicate TitleFromPiece(unquote: string -> string, pieces: seq<string>, title: Option<string>) {
    title.Some? ==> exists k :: 0 <= k < |pieces| && IsTitlePiece(pieces[k]) && title == Some(TitleOf(unquote, pieces[k]))
  }

  /** A found video URL is the unquoted tail of some piece containing `videoplayback`. */
  predicate VideoFromPiece(unquote: string -> string, pieces: seq<string>, video: Option<string>) {
    video.Some? ==> exists k :: 0 <= k < |pieces| && IsVideoPiece(pieces[k]) && video == Some(VideoOf(unquote, pieces[k]))
  }

  /**
   * `get_video_url(page_content, verbose)`: a title found is the unquoted value
   * of a `title=` piece of the `&`-split body, and a video found is the
   * unquoted tail of a piece containing `videoplayback`.
   */
  function GetVideoUrl(pageContent: string, unquote: string -> string): (found: Found)
    ensures TitleFromPiece(unquote, Split(pageContent, '&'), found.title)
    ensures VideoFromPiece(unquote, Split(pageContent, '&'), found.video)
  {
    var pieces := Split(pageContent, '&');
    var found := Scan(ClassifyAll(unquote, pieces), Found(None, None));
    ScanProvenance(unquote, pieces, found);
    found
  }

  /** A field the scan finds comes from a piece that passed the field's test. */
  lemma ScanProvenance(unquote: string -> string, pieces: seq<string>, found: Found)
    requires found == Scan(ClassifyAll(unquote, pieces), Found(None, None))
    ensures TitleFromPiece(unquote, pieces, found.title)
    ensures VideoFromPiece(unquote, pieces, found.video)
  {
    var cs := ClassifyAll(unquote, pieces);
    if found.title.Some? {
      var k :| 0 <= k < |cs| && cs[k].isTitle && found.title == Some(cs[k].title);
      assert cs[k] == Classify(unquote, pieces[k]);
    }
    if found.video.Some? {
      var k :| 0 <= k < |cs| && cs[k].isVideo && found.video == Some(cs[k].video);
      assert cs[k] == Classify(unquote, pieces[k]);
    }
  }

  /** Reference reading: the same loop without its `break`, visiting every piece. */
  function VisitAll(cs: seq<Piece>, acc: Found): Found
    decreases |cs|
  {
    if cs == [] then acc else VisitAll(cs[1..], Visit(acc, cs[0]))
  }

  /** Once a field is truthy no later piece changes it. */
  lemma {:induction false} TruthyFieldsStay(cs: seq<Piece>, acc: Found)
    ensures Truthy(acc.title) ==> VisitAll(cs, acc).title == acc.title
    ensures Truthy(acc.video) ==> VisitAll(cs, acc).video == acc.video
    decreases |cs|
  {
    if cs != [] {
      TruthyFieldsStay(cs[1..], Visit(acc, cs[0]));
    }
  }

  /** The `break` is only a shortcut: leaving early gives what visiting every piece gives. */
  lemma {:induction false} BreakChangesNothing(cs: seq<Piece>, acc: Found)
    ensures Scan(cs, acc) == VisitAll(cs, acc)
    decreases |cs|
  {
    if cs != [] {
      var acc' := Visit(acc, cs[0]);
      if Truthy(acc'.video) && Truthy(acc'.title) {
        TruthyFieldsStay(cs[1..], acc');
      } else {
        BreakChangesNothing(cs[1..], acc');
      }
    }
  }

  lemma {:induction false} TitleFoundIffPiece(cs: seq<Piece>, acc: Found)
    ensures VisitAll(cs, acc).title.Some?
        <==> acc.title.Some? || exists k :: 0 <= k < |cs| && cs[k].isTitle
    decreases |cs|
  {
    if cs != [] {
      TitleFoundIffPiece(cs[1..], Visit(acc, cs[0]));
      if exists k :: 0 <= k < |cs| && cs[k].isTitle {
        var k :| 0 <= k < |cs| && cs[k].isTitle;
        if k > 0 {
          assert cs[1..][k - 1].isTitle;
        }
      }
      if exists k :: 0 <= k < |cs[1..]| && cs[1..][k].isTitle {
        var k :| 0 <= k < |cs[1..]| && cs[1..][k].isTitle;
        assert cs[k + 1].isTitle;
      }
    }
  }

  /**
   * Piece `k` takes the title branch: it starts with `title=` and the title is
   * still falsy when the loop reaches it, because every earlier `title=` piece
   * carried an empty value.
   */
  predicate TakesTitle(cs: seq<Piece>, acc: Found, k: nat)
    requires k < |cs|
  {
    cs[k].isTitle && !Truthy(acc.title) && forall m :: 0 <= m < k && cs[m].isTitle ==> cs[m].title == ""
  }

  /** Whether a later piece takes the title branch does not change once the first piece is visited. */
  lemma TakesTitleTail(cs: seq<Piece>, acc: Found, k: nat)
    requires 1 <= k < |cs|
    ensures TakesTitle(cs[1..], Visit(acc, cs[0]), k - 1) == TakesTitle(cs, acc, k)
  {
    var rest := cs[1..];
    assert rest[k - 1] == cs[k];
    assert forall m :: 0 <= m < k - 1 ==> rest[m] == cs[m + 1];
    if TakesTitle(cs, acc, k) {
      forall m | 0 <= m < k - 1 && rest[m].isTitle ensures rest[m].title == "" {
        assert cs[m + 1].isTitle;
      }
    }
    if TakesTitle(rest, Visit(acc, cs[0]), k - 1) {
      forall m | 0 <= m < k && cs[m].isTitle ensures cs[m].title == "" {
        if m > 0 {
          assert rest[m - 1].isTitle;
        }
      }
    }
  }

  /** The first `title=` piece with a non-empty value that the loop reaches with a falsy title supplies the title. */
  lemma {:induction false} FirstTitleWins(cs: seq<Piece>, acc: Found, i: nat)
    requires i < |cs| && TakesTitle(cs, acc, i) && cs[i].title != ""
    ensures VisitAll(cs, acc).title == Some(cs[i].title)
    decreases |cs|
  {
    var acc' := Visit(acc, cs[0]);
    if i == 0 {
      TruthyFieldsStay(cs[1..], acc');
    } else {
      TakesTitleTail(cs, acc, i);
      FirstTitleWins(cs[1..], acc', i - 1);
    }
  }

  /**
   * Piece `k` takes the video branch: it contains `videoplayback`, it reaches
   * the `elif`, and the video is still falsy there, because the video is falsy
   * on entry and every earlier piece that reached the `elif` with
   * `videoplayback` carried an empty value.
   */
  predicate TakesVideo(cs: seq<Piece>, acc: Found, k: nat)
    requires k < |cs|
  {
    && cs[k].isVideo && !TakesTitle(cs, acc, k) && !Truthy(acc.video)
    && forall m :: 0 <= m < k && cs[m].isVideo && !TakesTitle(cs, acc, m) ==> cs[m].video == ""
  }

  /** A later piece that takes the video branch still takes it once the first piece is visited. */
  lemma TakesVideoTail(cs: seq<Piece>, acc: Found, k: nat)
    requires 1 <= k < |cs| && TakesVideo(cs, acc, k)
    ensures TakesVideo(cs[1..], Visit(acc, cs[0]), k - 1)
  {
    var rest := cs[1..];
    var acc' := Visit(acc, cs[0]);
    assert rest[k - 1] == cs[k];
    TakesTitleTail(cs, acc, k);
    if acc'.video != acc.video {
      assert cs[0].isVideo && !TakesTitle(cs, acc, 0);
    }
    forall m | 0 <= m < k - 1 && rest[m].isVideo && !TakesTitle(rest, acc', m) ensures rest[m].video == "" {
      assert rest[m] == cs[m + 1];
      TakesTitleTail(cs, acc, m + 1);
    }
  }

  /**
   * The first piece containing `videoplayback` that reaches the `elif` with a
   * non-empty value supplies the video URL; earlier such pieces with empty
   * values are replaced, because `not video` holds for `""`.
   */
  lemma {:induction false} FirstVideoWins(cs: seq<Piece>, acc: Found, j: nat)
    requires j < |cs| && TakesVideo(cs, acc, j) && cs[j].video != ""
    ensures VisitAll(cs, acc).video == Some(cs[j].video)
    decreases |cs|
  {
    var acc' := Visit(acc, cs[0]);
    if j == 0 {
      TruthyFieldsStay(cs[1..], acc');
    } else {
      TakesVideoTail(cs, acc, j);
      FirstVideoWins(cs[1..], acc', j - 1);
    }
  }

  /**
   * A video is found exactly when one was given, or some piece containing
   * `videoplayback` reaches the `elif` (does not take the title branch).
   */
  lemma {:induction false} VideoFoundIffTaken(cs: seq<Piece>, acc: Found)
    ensures VisitAll(cs, acc).video.Some?
        <==> acc.video.Some? || exists k :: 0 <= k < |cs| && cs[k].isVideo && !TakesTitle(cs, acc, k)
    decreases |cs|
  {
    if cs != [] {
      var rest := cs[1..];
      var acc' := Visit(acc, cs[0]);
      VideoFoundIffTaken(rest, acc');
      forall k | 1 <= k < |cs|
        ensures rest[k - 1] == cs[k] && TakesTitle(rest, acc', k - 1) == TakesTitle(cs, acc, k)
      {
        TakesTitleTail(cs, acc, k);
      }
      if exists k :: 0 <= k < |cs| && cs[k].isVideo && !TakesTitle(cs, acc, k) {
        var k :| 0 <= k < |cs| && cs[k].isVideo && !TakesTitle(cs, acc, k);
        if k > 0 {
          assert rest[k - 1].isVideo && !TakesTitle(rest, acc', k - 1);
        }
      }
      if exists k :: 0 <= k < |rest| && rest[k].isVideo && !TakesTitle(rest, acc', k) {
        var k :| 0 <= k < |rest| && rest[k].isVideo && !TakesTitle(rest, acc', k);
        assert cs[k + 1].isVideo && !TakesTitle(cs, acc, k + 1);
      }
    }
  }

  /**
   * A stored video URL is the `video` of some piece that passed the video test
   * and reached the `elif`, that is, did not take the title branch.
   */
  lemma {:induction false} VideoComesFromVideoPiece(cs: seq<Piece>, acc: Found)
    ensures var v := VisitAll(cs, acc).video;
      v == acc.video || exists k :: 0 <= k < |cs| && cs[k].isVideo && !TakesTitle(cs, acc, k) && v == Some(cs[k].video)
    decreases |cs|
  {
    if cs != [] {
      var rest := cs[1..];
      var acc' := Visit(acc, cs[0]);
      VideoComesFromVideoPiece(rest, acc');
      var v := VisitAll(cs, acc).video;
      if v != acc.video {
        if v == acc'.video {
          assert cs[0].isVideo && !TakesTitle(cs, acc, 0) && v == Some(cs[0].video);
        } else {
          var k :| 0 <= k < |rest| && rest[k].isVideo && !TakesTitle(rest, acc', k) && v == Some(rest[k].video);
          assert cs[k + 1] == rest[k];
          TakesTitleTail(cs, acc, k + 1);
        }
      }
    }
  }

  /** Leaving the loop early changes nothing: `get_video_url` is the scan over every piece of the `&`-split body. */
  lemma GetVideoUrlIgnoresBreak(pageContent: string, unquote: string -> string)
    ensures GetVideoUrl(pageContent, unquote)
         == VisitAll(ClassifyAll(unquote, Split(pageContent, '&')), Found(None, None))
  {
    BreakChangesNothing(ClassifyAll(unquote, Split(pageContent, '&')), Found(None, None));
  }

  /** Every `title=` piece before index `k` carries an empty value, so the title is still falsy at `k`. */
  predicate EarlierTitlesEmpty(unquote: string -> string, pieces: seq<string>, k: nat)
    requires k <= |pieces|
  {
    forall m :: 0 <= m < k && IsTitlePiece(pieces[m]) ==> TitleOf(unquote, pieces[m]) == ""
  }

  /** On the classified body, taking the title branch is a condition on the pieces themselves. */
  lemma TakesTitleOnPieces(unquote: string -> string, pieces: seq<string>, k: nat)
    requires k < |pieces|
    ensures TakesTitle(ClassifyAll(unquote, pieces), Found(None, None), k)
        <==> IsTitlePiece(pieces[k]) && EarlierTitlesEmpty(unquote, pieces, k)
  {
    var cs := ClassifyAll(unquote, pieces);
    assert cs[k] == Classify(unquote, pieces[k]);
    forall m | 0 <= m < k ensures cs[m].isTitle == IsTitlePiece(pieces[m]) && cs[m].title == TitleOf(unquote, pieces[m]) {
      assert cs[m] == Classify(unquote, pieces[m]);
    }
  }

  /**
   * `get_video_url` finds a title exactly when some piece of the `&`-split body
   * starts with `title=`; the first such piece with a non-empty value supplies
   * it, since `not title` lets a later piece replace an empty one.
   */
  lemma GetVideoUrlTitle(pageContent: string, unquote: string -> string)
    ensures var pieces := Split(pageContent, '&');
      var found := GetVideoUrl(pageContent, unquote);
      && (found.title.Some? <==> exists k :: 0 <= k < |pieces| && IsTitlePiece(pieces[k]))
      && (forall i :: 0 <= i < |pieces| && IsTitlePiece(pieces[i]) && TitleOf(unquote, pieces[i]) != ""
            && EarlierTitlesEmpty(unquote, pieces, i)
            ==> found.title == Some(TitleOf(unquote, pieces[i])))
  {
    var pieces := Split(pageContent, '&');
    var cs := ClassifyAll(unquote, pieces);
    var start := Found(None, None);
    GetVideoUrlIgnoresBreak(pageContent, unquote);
    TitleFoundIffPiece(cs, start);
    forall i | 0 <= i < |pieces| && IsTitlePiece(pieces[i]) && TitleOf(unquote, pieces[i]) != ""
      && EarlierTitlesEmpty(unquote, pieces, i)
      ensures VisitAll(cs, start).title == Some(TitleOf(unquote, pieces[i]))
    {
      TakesTitleOnPieces(unquote, pieces, i);
      assert cs[i] == Classify(unquote, pieces[i]);
      FirstTitleWins(cs, start, i);
    }
  }

  /**
   * A video URL `get_video_url` returns has no `|` and is the tail of an
   * unquoted piece that reached the `elif` with `videoplayback` in it.
   */
  lemma GetVideoUrlVideoSource(pageContent: string, unquote: string -> string)
    ensures var pieces := Split(pageContent, '&');
      var found := GetVideoUrl(pageContent, unquote);
      && (found.video.Some? ==> '|' !in found.video.value)
      && (found.video.Some? ==>
            exists k :: 0 <= k < |pieces| && ReachesVideo(unquote, pieces, k) && found.video == Some(VideoOf(unquote, pieces[k])))
  {
    var pieces := Split(pageContent, '&');
    var cs := ClassifyAll(unquote, pieces);
    var start := Found(None, None);
    GetVideoUrlIgnoresBreak(pageContent, unquote);
    VideoComesFromVideoPiece(cs, start);
    var v := VisitAll(cs, start).video;
    if v.Some? {
      var k :| 0 <= k < |cs| && cs[k].isVideo && !TakesTitle(cs, start, k) && v == Some(cs[k].video);
      assert cs[k] == Classify(unquote, pieces[k]);
      TakesTitleOnPieces(unquote, pieces, k);
      assert ReachesVideo(unquote, pieces, k);
      LastPieceIsSuffix(unquote(pieces[k]), '|');
    }
  }

  /**
   * `get_video_url` finds a video exactly when some piece of the `&`-split
   * body reaches the `elif` with `videoplayback` in it; otherwise the video is
   * `None`, as for `title=videoplayback`.
   */
  lemma GetVideoUrlVideoFound(pageContent: string, unquote: string -> string)
    ensures var pieces := Split(pageContent, '&');
      GetVideoUrl(pageContent, unquote).video.Some? <==> exists k :: 0 <= k < |pieces| && ReachesVideo(unquote, pieces, k)
  {
    var pieces := Split(pageContent, '&');
    var cs := ClassifyAll(unquote, pieces);
    var start := Found(None, None);
    GetVideoUrlIgnoresBreak(pageContent, unquote);
    VideoFoundIffTaken(cs, start);
    if exists k :: 0 <= k < |pieces| && ReachesVideo(unquote, pieces, k) {
      var k :| 0 <= k < |pieces| && ReachesVideo(unquote, pieces, k);
      assert cs[k] == Classify(unquote, pieces[k]);
      TakesTitleOnPieces(unquote, pieces, k);
      assert cs[k].isVideo && !TakesTitle(cs, start, k);
    }
    if exists k :: 0 <= k < |cs| && cs[k].isVideo && !TakesTitle(cs, start, k) {
      var k :| 0 <= k < |cs| && cs[k].isVideo && !TakesTitle(cs, start, k);
      assert cs[k] == Classify(unquote, pieces[k]);
      TakesTitleOnPieces(unquote, pieces, k);
      assert ReachesVideo(unquote, pieces, k);
    }
  }

  /**
   * Piece `k` reaches the `elif` with `videoplayback` in it: it does not
   * start with `title=`, or some earlier `title=` value was non-empty.
   */
  predicate ReachesVideo(unquote: string -> string, pieces: seq<string>, k: nat)
    requires k < |pieces|
  {
    IsVideoPiece(pieces[k]) && !(IsTitlePiece(pieces[k]) && EarlierTitlesEmpty(unquote, pieces, k))
  }

  /**
   * The first piece of the body that reaches the `elif` with `videoplayback`
   * and a non-empty value supplies the video URL; earlier such pieces with
   * empty values are replaced, since `not video` lets a later piece in.
   */
  lemma GetVideoUrlFirstVideo(pageContent: string, unquote: string -> string, j: nat)
    requires var pieces := Split(pageContent, '&');
      && j < |pieces| && ReachesVideo(unquote, pieces, j) && VideoOf(unquote, pieces[j]) != ""
      && forall k :: 0 <= k < j && ReachesVideo(unquote, pieces, k) ==> VideoOf(unquote, pieces[k]) == ""
    ensures GetVideoUrl(pageContent, unquote).video == Some(VideoOf(unquote, Split(pageContent, '&')[j]))
  {
    var pieces := Split(pageContent, '&');
    var cs := ClassifyAll(unquote, pieces);
    var start := Found(None, None);
    BreakChangesNothing(cs, start);
    TakesTitleOnPieces(unquote, pieces, j);
    assert cs[j] == Classify(unquote, pieces[j]);
    forall m | 0 <= m < j && cs[m].isVideo && !TakesTitle(cs, start, m) ensures cs[m].video == "" {
      assert cs[m] == Classify(unquote, pieces[m]);
      TakesTitleOnPieces(unquote, pieces, m);
    }
    assert TakesVideo(cs, start, j);
    FirstVideoWins(cs, start, j);
  }

  // ---------------------------------------------------------------------------
  // The output filename chosen in main

  /** The index of the last `c` in `s`, or -1 (`str.rfind`). */
  function RFind(s: string, c: char): (i: int)
    ensures -1 <= i < |s|
    ensures i >= 0 ==> s[i] == c
    ensures forall k :: i < k < |s| ==> s[k] != c
  {
    if s == [] then -1
    else if s[|s| - 1] == c then |s| - 1
    else RFind(s[..|s| - 1], c)
  }

  /**
   * `os.path.splitext(p)[1]` (POSIX): from the last dot of the last path
   * component, unless everything before that dot in the component is dots.
   */
  function Extension(p: string): (ext: string)
    ensures |ext| <= |p|
    ensures ext == p[|p| - |ext|..]
    ensures ext != "" ==> ext[0] == '.' && '.' !in ext[1..] && '/' !in ext
    ensures ext != "" <==> exists k, d :: 0 <= k < d < |p| && p[d] == '.' && p[k] != '.' && '/' !in p[k..]
  {
    var sep := RFind(p, '/');
    var dot := RFind(p, '.');
    if dot > sep && exists k :: sep + 1 <= k < dot && p[k] != '.' then
      assert forall k :: dot < k < |p| ==> p[k] != '.' && p[k] != '/';
      var k :| sep + 1 <= k < dot && p[k] != '.';
      assert '/' !in p[k..] by {
        forall j | k <= j < |p| ensures p[j] != '/' {
          assert j > sep;
        }
      }
      p[dot..]
    else
      ""
  }

  predicate EndsWith(s: string, suffix: string) {
    |suffix| <= |s| && s[|s| - |suffix|..] == suffix
  }

  /** `f"video_{video_id}.mp4"`. */
  function DefaultFilename(videoId: string): string {
    "video_" + videoId + ".mp4"
  }

  /**
   * `filename.strip()`, then `+= '.mp4'` when `splitext` finds no extension:
   * a stripped name with an extension is kept as it is, one without gets
   * `.mp4` appended, and either way the result has an extension or ends in
   * `.mp4`.
   */
  function WithDefaultExtension(name: string): (r: string)
    ensures Extension(Strip(name)) != "" ==> r == Strip(name)
    ensures Extension(Strip(name)) == "" ==> r == Strip(name) + ".mp4"
    ensures Extension(r) != "" || EndsWith(r, ".mp4")
  {
    var stripped := Strip(name);
    if Extension(stripped) == "" then stripped + ".mp4" else stripped
  }

  /**
   * The filename `main` derives from `--output`, the title and the video id:
   * the default name, or one of the two given names with `.mp4` added as
   * needed.
   */
  function OutputFilename(outputFile: Option<string>, title: Option<string>, videoId: string): (name: string)
    ensures || name == DefaultFilename(videoId)
            || (outputFile.Some? && name == WithDefaultExtension(outputFile.value))
            || (title.Some? && name == WithDefaultExtension(title.value))
  {
    var chosen := if Truthy(outputFile) then outputFile
                  else if Truthy(title) && !IsBlank(title.value) then title
                  else None;
    if !Truthy(chosen) || IsBlank(chosen.value) then DefaultFilename(videoId)
    else WithDefaultExtension(chosen.value)
  }

  /**
   * Which name wins: a non-blank `--output`; a blank but non-empty `--output`
   * gives the default name even when there is a title; with no `--output`, a
   * non-blank title; otherwise `video_<id>.mp4`.
   */
  lemma FilenameChoice(outputFile: Option<string>, title: Option<string>, videoId: string)
    ensures Truthy(outputFile) && !IsBlank(outputFile.value)
      ==> OutputFilename(outputFile, title, videoId) == WithDefaultExtension(outputFile.value)
    ensures Truthy(outputFile) && IsBlank(outputFile.value)
      ==> OutputFilename(outputFile, title, videoId) == DefaultFilename(videoId)
    ensures !Truthy(outputFile) && title.Some? && !IsBlank(title.value)
      ==> OutputFilename(outputFile, title, videoId) == WithDefaultExtension(title.value)
    ensures !Truthy(outputFile) && (title.None? || IsBlank(title.value))
      ==> OutputFilename(outputFile, title, videoId) == DefaultFilename(videoId)
  {
    var chosen := if Truthy(outputFile) then outputFile
                  else if Truthy(title) && !IsBlank(title.value) then title
                  else None;
    if title.Some? && !IsBlank(title.value) {
      assert title.value != "";
    }
    assert OutputFilename(outputFile, title, videoId)
        == if !Truthy(chosen) || IsBlank(chosen.value) then DefaultFilename(videoId)
           else WithDefaultExtension(chosen.value);
  }

  /** A stripped name with `.mp4` added when it lacks an extension is not blank, is trimmed, and is typed. */
  lemma WithDefaultExtensionIsTrimmedAndTyped(name: string)
    requires !IsBlank(name)
    ensures var r := WithDefaultExtension(name);
      && r != ""
      && !IsSpace(r[0]) && !IsSpace(r[|r| - 1])
      && (Extension(r) != "" || EndsWith(r, ".mp4"))
  {
    var stripped := Strip(name);
    if Extension(stripped) == "" {
      var r := stripped + ".mp4";
      assert r[|r| - 1] == '4';
      assert r[0] == stripped[0];
    }
  }

  /** The derived name is never blank, has no white space at either end, and has an extension or ends in `.mp4`. */
  lemma FilenameIsTrimmedAndTyped(outputFile: Option<string>, title: Option<string>, videoId: string)
    ensures var name := OutputFilename(outputFile, title, videoId);
      && name != ""
      && !IsSpace(name[0]) && !IsSpace(name[|name| - 1])
      && (Extension(name) != "" || EndsWith(name, ".mp4"))
  {
    var chosen := if Truthy(outputFile) then outputFile
                  else if Truthy(title) && !IsBlank(title.value) then title
                  else None;
    if Truthy(chosen) && !IsBlank(chosen.value) {
      assert OutputFilename(outputFile, title, videoId) == WithDefaultExtension(chosen.value);
      WithDefaultExtensionIsTrimmedAndTyped(chosen.value);
    } else {
      assert OutputFilename(outputFile, title, videoId) == DefaultFilename(videoId);
      DefaultFilenameIsTrimmedAndTyped(videoId);
    }
  }

  /** `video_<id>.mp4` is not blank, is trimmed, and ends in `.mp4`. */
  lemma DefaultFilenameIsTrimmedAndTyped(videoId: string)
    ensures var name := DefaultFilename(videoId);
      name != "" && !IsSpace(name[0]) && !IsSpace(name[|name| - 1]) && EndsWith(name, ".mp4")
  {
    var name := DefaultFilename(videoId);
    assert name[0] == 'v' && name[|name| - 1] == '4';
    assert name[|name| - 4..] == ".mp4";
  }

  // ---------------------------------------------------------------------------
  // extract_video_id

  /** `[a-zA-Z0-9_-]`. */
  predicate IsIdChar(c: char) {
    ('a' <= c <= 'z') || ('A' <= c <= 'Z') || ('0' <= c <= '9') || c == '_' || c == '-'
  }

  /** The longest run of id characters at the start of `s` (the greedy `+`). */
  function IdRun(s: string): (r: string)
    ensures |r| <= |s| && r == s[..|r|]
    ensures forall k :: 0 <= k < |r| ==> IsIdChar(r[k])
    ensures |r| == |s| || !IsIdChar(s[|r|])
  {
    if s != [] && IsIdChar(s[0]) then [s[0]] + IdRun(s[1..]) else []
  }

  /** `/file/d/` followed by at least one id character starts at the beginning of `s`. */
  predicate FileIdHere(s: string) {
    StartsWith(s, "/file/d/") && |s| > 8 && IsIdChar(s[8])
  }

  /** `re.search(r'/file/d/([a-zA-Z0-9_-]+)', url)`: group 1 of the leftmost match. */
  function SearchFileId(url: string): (r: Option<string>)
    ensures r.Some? ==> r.value != "" && forall k :: 0 <= k < |r.value| ==> IsIdChar(r.value[k])
    decreases |url|
  {
    if FileIdHere(url) then Some(IdRun(url[8..]))
    else if url == [] then None
    else SearchFileId(url[1..])
  }

  /** The search finds the leftmost `/file/d/<id>` and returns the whole id run there; it fails only when there is none. */
  lemma {:induction false} SearchFileIdIsLeftmost(url: string) returns (i: nat)
    ensures SearchFileId(url).Some? ==>
      && i < |url| && FileIdHere(url[i..])
      && SearchFileId(url) == Some(IdRun(url[i + 8..]))
      && SearchFileId(url).value != ""
      && forall j :: 0 <= j < i ==> !FileIdHere(url[j..])
    ensures SearchFileId(url).None? ==> forall j :: 0 <= j <= |url| ==> !FileIdHere(url[j..])
    decreases |url|
  {
    if FileIdHere(url) {
      i := 0;
    } else if url == [] {
      i := 0;
    } else {
      var i' := SearchFileIdIsLeftmost(url[1..]);
      i := i' + 1;
      forall j | 0 < j <= |url| ensures url[j..] == url[1..][j - 1..] {
      }
      if SearchFileId(url).Some? {
        assert url[i..] == url[1..][i'..];
        assert url[i + 8..] == url[1..][i' + 8..];
      }
    }
  }

  /**
   * `extract_video_id(url)`: a bare id (no `/`, no `.`) as it is; else the id
   * of a `/file/d/<id>` link; else the `id` query parameter; else the input.
   */
  function ExtractVideoId(url: string, queryId: string -> Option<string>): (id: string)
    ensures '/' !in url && '.' !in url ==> id == url
    ensures ('/' in url || '.' in url) && SearchFileId(url).Some? ==> id == SearchFileId(url).value
    ensures ('/' in url || '.' in url) && SearchFileId(url).None? ==> id == queryId(url).GetOr(url)
  {
    if '/' !in url && '.' !in url then url
    else match SearchFileId(url)
      case Some(found) => found
      case None => queryId(url).GetOr(url)
  }
}
