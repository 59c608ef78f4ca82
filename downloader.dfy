/** The downloader object: its progress record, the requests its HTTP
    session issues, and the per-lesson procedure that decides whether to
    fetch a lesson, writes the lesson page, rewrites its image references
    and fetches its images and PDFs. The remote side (lesson replies, page
    replies, file transfers) and `urljoin(BASE_URL, ·)` are parameters. */
module Downloader {
  import opened Text
  import opened Names
  import opened Markdown
  import opened Ledger
  import opened Catalogue
  import opened Disk

  /** A GET request of the session. */
  datatype Request =
    | CoursesPage(page: int)
    | LessonApi(lessonId: int, courseId: int)
    | FileGet(url: string)

  /** What the transfer of one file does once it is requested: it completes,
      it is refused before the file is opened (an error status, a connection
      failure), or it breaks off after the file was opened. */
  datatype Outcome = Complete | Refused | Interrupted

  /** The decoded lesson reply, with the results of the HTML library on
      `content` given as data: whether it holds any tag, the `src` of each
      `img` tag (empty when missing), its Markdown conversion, and the
      `href` of each `a` tag ending with `.pdf`. */
  datatype LessonBody = LessonBody(
    content: string,
    isHtml: bool,
    imgSrcs: seq<string>,
    converted: string,
    pdfHrefs: seq<string>)

  /** The reply to the lesson request; `Unreachable` stands for a raised
      exception (connection error, undecodable JSON). */
  datatype LessonReply = Unreachable | Reply(status: int, body: LessonBody)

  /** One call of `download_lesson`: the lesson's id and title, the course
      slug and title, the module id, the course id and the module directory. */
  datatype LessonTask = LessonTask(
    lessonId: int,
    title: string,
    slug: string,
    courseTitle: string,
    moduleId: int,
    courseId: int,
    dir: string)

  /** Everything the downloader can change: the ledger, the ledger versions
      saved so far, the files, and the requests issued so far. */
  datatype World = World(
    courses: Courses,
    saved: seq<Courses>,
    files: map<string, Entry>,
    requests: seq<Request>)

  /** The lesson page path: `<dir>/<sanitized title>.md`. */
  function ArtifactPath(t: LessonTask): string
  {
    PathJoin(t.dir, Sanitize(t.title) + ".md")
  }

  /** The text written to the lesson page. */
  function PageText(title: string, body: string): string
  {
    "# " + title + "\n\n" + body
  }

  /** `_mark_lesson_completed`: the ledger gains the lesson and is saved. */
  function Mark(w: World, t: LessonTask): World
  {
    var c := Marked(w.courses, t.slug, t.courseTitle, t.moduleId, t.lessonId);
    w.(courses := c, saved := w.saved + [c])
  }

  /** `_download_file(url, path)`: an existing path is never requested nor
      touched; otherwise the URL is requested and the path holds what the
      transfer left. */
  function Fetch(w: World, url: string, path: string, transport: string -> Outcome): (r: World)
    ensures r.courses == w.courses && r.saved == w.saved
    ensures path in w.files ==> r == w
    ensures path !in w.files ==> r.requests == w.requests + [FileGet(url)]
    ensures path !in w.files ==> (path in r.files <==> transport(url) != Refused)
    ensures path !in w.files && transport(url) == Complete ==> r.files[path] == Download(url, true)
    ensures path !in w.files && transport(url) == Interrupted ==> r.files[path] == Download(url, false)
    ensures forall p :: p in w.files ==> p in r.files && r.files[p] == w.files[p]
    ensures forall p :: p in r.files ==> p in w.files || p == path
  {
    if path in w.files then w
    else
      var w1 := w.(requests := w.requests + [FileGet(url)]);
      match transport(url)
      case Complete => w1.(files := w1.files[path := Download(url, true)])
      case Refused => w1
      case Interrupted => w1.(files := w1.files[path := Download(url, false)])
  }

  /** The downloads `(url, path)` performed in order. */
  function FetchAll(w: World, jobs: seq<(string, string)>, transport: string -> Outcome): World
  {
    if jobs == [] then w
    else
      var last := jobs[|jobs| - 1];
      Fetch(FetchAll(w, jobs[..|jobs| - 1], transport), last.0, last.1, transport)
  }

  /** A list of downloads leaves the ledger alone, only appends requests,
      and never alters a file that was there before. */
  lemma {:induction false} FetchAllKeeps(w: World, jobs: seq<(string, string)>, transport: string -> Outcome)
    ensures var r := FetchAll(w, jobs, transport);
      && r.courses == w.courses && r.saved == w.saved
      && |w.requests| <= |r.requests| && r.requests[..|w.requests|] == w.requests
      && forall p :: p in w.files ==> p in r.files && r.files[p] == w.files[p]
  {
    if jobs != [] {
      var n := |jobs| - 1;
      var before := FetchAll(w, jobs[..n], transport);
      FetchAllKeeps(w, jobs[..n], transport);
      assert before.requests[..|w.requests|] == w.requests;
    }
  }

  /** Downloading one more file after a list. */
  lemma FetchAllSnoc(w: World, jobs: seq<(string, string)>, job: (string, string), transport: string -> Outcome)
    ensures FetchAll(w, jobs + [job], transport) == Fetch(FetchAll(w, jobs, transport), job.0, job.1, transport)
  {
    assert (jobs + [job])[..|jobs|] == jobs;
  }

  /** Every download that completes leaves its file in place. */
  lemma {:induction false} FetchAllComplete(w: World, jobs: seq<(string, string)>, transport: string -> Outcome, k: nat)
    requires k < |jobs| && transport(jobs[k].0) == Complete
    ensures jobs[k].1 in FetchAll(w, jobs, transport).files
  {
    var n := |jobs| - 1;
    if k < n {
      assert jobs[..n][k] == jobs[k];
      FetchAllComplete(w, jobs[..n], transport, k);
    }
  }

  /** Only paths of the job list can appear. */
  lemma {:induction false} FetchAllOnlyJobs(w: World, jobs: seq<(string, string)>, transport: string -> Outcome, p: string)
    requires p in FetchAll(w, jobs, transport).files && p !in w.files
    ensures exists k :: 0 <= k < |jobs| && jobs[k].1 == p
  {
    var n := |jobs| - 1;
    var before := FetchAll(w, jobs[..n], transport);
    if p in before.files {
      FetchAllOnlyJobs(w, jobs[..n], transport, p);
      var k :| 0 <= k < n && jobs[..n][k].1 == p;
      assert jobs[k] == jobs[..n][k];
    } else {
      assert jobs[n].1 == p;
    }
  }

  /** The `src` of an image tag as fetched: absolute ones as they are,
      others joined with the site's base URL. */
  function TagUrl(src: string, join: string -> string): string
  {
    if StartsWith(src, "http") then src else join(src)
  }

  /** The name the image-tag pass saves a tag's image under, given its
      derived name and the names already recorded in `image_map`: the
      derived name when it is not taken, otherwise the derived name with
      `_<len(image_map)>` put before its extension. */
  function TagName(imageMap: map<string, string>, derived: string): (name: string)
    ensures name == derived <==> derived !in imageMap.Values
    ensures derived in imageMap.Values ==> name == Renamed(derived, |imageMap|)
  {
    if derived in imageMap.Values then
      RenamedDiffers(derived, |imageMap|);
      Renamed(derived, |imageMap|)
    else derived
  }

  /** A renamed image keeps the extension of its derived name. */
  lemma TagNameKeepsExtension(imageMap: map<string, string>, derived: string)
    ensures SplitExt(TagName(imageMap, derived)).1 == SplitExt(derived).1
  {
    if derived in imageMap.Values {
      RenamedKeepsExtension(derived, |imageMap|);
    }
  }

  /** The image-tag pass over the `src` values in document order, naming
      each image with `derive` (the downloader derives
      `sanitize_filename(basename(unquote(url.split('?')[0])))`, see
      `TagJobs`): the downloads `(url, path)` it performs and the final
      `image_map`. */
  function TagPass(srcs: seq<string>, dir: string, join: string -> string, derive: string -> string)
    : (r: (seq<(string, string)>, map<string, string>))
    ensures |r.0| <= |srcs|
  {
    if srcs == [] then ([], map[])
    else
      var (jobs, imageMap) := TagPass(srcs[..|srcs| - 1], dir, join, derive);
      var src := srcs[|srcs| - 1];
      if src == [] then (jobs, imageMap)
      else
        var url := TagUrl(src, join);
        var name := TagName(imageMap, derive(url));
        (jobs + [(url, PathJoin(dir, name))], imageMap[url := name])
  }

  /** One step of the image-tag pass: a tag without `src` changes nothing,
      a tag with one appends one download and records one name. */
  lemma TagPassStep(srcs: seq<string>, s: string, dir: string, join: string -> string, derive: string -> string)
    ensures var before := TagPass(srcs, dir, join, derive);
      var url := TagUrl(s, join);
      var name := TagName(before.1, derive(url));
      && (s == [] ==> TagPass(srcs + [s], dir, join, derive) == before)
      && (s != [] ==> TagPass(srcs + [s], dir, join, derive).0 == before.0 + [(url, PathJoin(dir, name))])
      && (s != [] ==> TagPass(srcs + [s], dir, join, derive).1 == before.1[url := name])
  {
    assert (srcs + [s])[..|srcs|] == srcs;
  }

  /** Every image tag with a non-empty `src` gives one download. */
  lemma {:induction false} TagPassCounts(srcs: seq<string>, dir: string, join: string -> string, derive: string -> string)
    ensures |TagPass(srcs, dir, join, derive).0| == |WithSrc(srcs)|
  {
    if srcs != [] {
      TagPassCounts(srcs[..|srcs| - 1], dir, join, derive);
      WithSrcLast(srcs);
    }
  }

  /** The positions of the tags that have a `src`. */
  function WithSrc(srcs: seq<string>): set<nat>
  {
    set k: nat | k < |srcs| && srcs[k] != []
  }

  lemma WithSrcLast(srcs: seq<string>)
    requires srcs != []
    ensures var n := |srcs| - 1;
      |WithSrc(srcs)| == |WithSrc(srcs[..n])| + (if srcs[n] == [] then 0 else 1)
  {
    var n := |srcs| - 1;
    var before := WithSrc(srcs[..n]);
    assert before == set k: nat | k < n && srcs[k] != [];
    if srcs[n] == [] {
      assert WithSrc(srcs) == before;
    } else {
      assert WithSrc(srcs) == before + {n};
    }
  }

  /** Each recorded name is the URL's derived name or that name renamed
      with a counter. */
  lemma {:induction false} TagPassNames(srcs: seq<string>, dir: string, join: string -> string, derive: string -> string, url: string)
    requires url in TagPass(srcs, dir, join, derive).1
    ensures var name := TagPass(srcs, dir, join, derive).1[url];
      name == derive(url) || exists n: nat :: name == Renamed(derive(url), n)
  {
    var n := |srcs| - 1;
    var imageMap := TagPass(srcs[..n], dir, join, derive).1;
    if srcs[n] != [] && TagUrl(srcs[n], join) == url {
      if derive(url) in imageMap.Values {
        assert TagName(imageMap, derive(url)) == Renamed(derive(url), |imageMap|);
      }
    } else {
      TagPassNames(srcs[..n], dir, join, derive, url);
    }
  }

  /** Each recorded name keeps the extension of the URL's derived name. */
  lemma {:induction false} TagPassExtension(srcs: seq<string>, dir: string, join: string -> string, derive: string -> string, url: string)
    requires url in TagPass(srcs, dir, join, derive).1
    ensures SplitExt(TagPass(srcs, dir, join, derive).1[url]).1 == SplitExt(derive(url)).1
  {
    var n := |srcs| - 1;
    var imageMap := TagPass(srcs[..n], dir, join, derive).1;
    if srcs[n] != [] && TagUrl(srcs[n], join) == url {
      TagNameKeepsExtension(imageMap, derive(url));
    } else {
      TagPassExtension(srcs[..n], dir, join, derive, url);
    }
  }

  /** Every URL in the map was downloaded to the path of its recorded name. */
  lemma {:induction false} TagPassRecorded(srcs: seq<string>, dir: string, join: string -> string, derive: string -> string, url: string)
    requires url in TagPass(srcs, dir, join, derive).1
    ensures (url, PathJoin(dir, TagPass(srcs, dir, join, derive).1[url])) in TagPass(srcs, dir, join, derive).0
  {
    var n := |srcs| - 1;
    if !(srcs[n] != [] && TagUrl(srcs[n], join) == url) {
      TagPassRecorded(srcs[..n], dir, join, derive, url);
    }
  }

  /** The renamed name is not itself checked against the recorded names:
      when both the derived name and its renamed form are taken, the tag
      gets a name some URL already holds. */
  lemma TagNameCollides(imageMap: map<string, string>, derived: string)
    requires derived in imageMap.Values
    requires Renamed(derived, |imageMap|) in imageMap.Values
    ensures exists k :: k in imageMap && imageMap[k] == TagName(imageMap, derived)
  {
  }

  /** So the tag's download targets the path of an earlier download: with
      tags whose derived names are `x_2.png`, `x.png` and `x.png` again, the
      third image is saved over the first one's path (or skipped when that
      file exists). */
  lemma TagPassCollides(srcs: seq<string>, s: string, dir: string, join: string -> string, derive: string -> string)
    requires s != []
    requires var m := TagPass(srcs, dir, join, derive).1; var n := derive(TagUrl(s, join));
      n in m.Values && Renamed(n, |m|) in m.Values
    ensures var before := TagPass(srcs, dir, join, derive).0;
      var after := TagPass(srcs + [s], dir, join, derive).0;
      |after| == |before| + 1 && exists j :: 0 <= j < |before| && after[|before|].1 == before[j].1
  {
    var (jobs, m) := TagPass(srcs, dir, join, derive);
    var url := TagUrl(s, join);
    TagNameCollides(m, derive(url));
    var k :| k in m && m[k] == TagName(m, derive(url));
    TagPassRecorded(srcs, dir, join, derive, k);
    TagPassStep(srcs, s, dir, join, derive);
    var j :| 0 <= j < |jobs| && jobs[j] == (k, PathJoin(dir, m[k]));
    assert TagPass(srcs + [s], dir, join, derive).0[|jobs|].1 == jobs[j].1;
  }

  /** The downloads `replace_image` performs, located in `dir`. */
  function Located(dir: string, fetches: seq<(string, string)>): (jobs: seq<(string, string)>)
    ensures |jobs| == |fetches|
    ensures forall k :: 0 <= k < |jobs| ==> jobs[k] == (fetches[k].0, PathJoin(dir, fetches[k].1))
  {
    seq(|fetches|, k requires 0 <= k < |fetches| => (fetches[k].0, PathJoin(dir, fetches[k].1)))
  }

  /** The download of one PDF link: joined with the base URL unless
      absolute, saved under `basename(unquote(url))`. */
  function PdfJob(href: string, dir: string, join: string -> string): (job: (string, string))
    ensures job.0 == TagUrl(href, join)
  {
    var url := TagUrl(href, join);
    (url, PathJoin(dir, PdfName(url)))
  }

  /** The PDF downloads, one per link, in order. */
  function PdfJobs(hrefs: seq<string>, dir: string, join: string -> string): (jobs: seq<(string, string)>)
    ensures |jobs| == |hrefs|
    ensures forall k :: 0 <= k < |jobs| ==> jobs[k] == PdfJob(hrefs[k], dir, join)
  {
    seq(|hrefs|, k requires 0 <= k < |hrefs| => PdfJob(hrefs[k], dir, join))
  }

  /** Each PDF is saved directly in the module directory under a name
      without `/`, whatever its link looks like. */
  lemma PdfSavedInDir(hrefs: seq<string>, dir: string, join: string -> string, k: nat)
    requires k < |hrefs|
    requires dir != [] && dir[|dir| - 1] != '/'
    ensures var job := PdfJobs(hrefs, dir, join)[k];
      job.1 == dir + "/" + PdfName(job.0) && Basename(job.1) == PdfName(job.0)
  {
    var url := TagUrl(hrefs[k], join);
    JoinInside(dir, PdfName(url));
  }

  /** The reply carries lesson content: status 200 and a non-empty body. */
  predicate Delivered(reply: LessonReply)
  {
    reply.Reply? && reply.status == 200 && reply.body.content != []
  }

  /** The Markdown the page is written from: the converted HTML, or the
      content itself when it holds no tag. */
  function Source(b: LessonBody): string
  {
    if b.isHtml then b.converted else b.content
  }

  /** The image-tag downloads, performed only for HTML content. */
  function TagJobs(b: LessonBody, dir: string, join: string -> string): seq<(string, string)>
  {
    if b.isHtml then TagPass(b.imgSrcs, dir, join, ImageName).0 else []
  }

  /** The downloads of the Markdown image references. */
  function RefJobs(b: LessonBody, dir: string, join: string -> string): seq<(string, string)>
  {
    Located(dir, ImageFetches(Scan(Source(b)), join, ImageName))
  }

  /** The PDF links: the anchors found in the HTML, or the Markdown links
      of plain content. */
  function PdfHrefs(b: LessonBody): seq<string>
  {
    if b.isHtml then b.pdfHrefs else PdfLinks(b.content)
  }

  /** The order of the steps for delivered content: image tags, image
      references, the page at `path`, the ledger, the PDFs. */
  function Stages(w: World, t: LessonTask, path: string, page: Entry, tagJobs: seq<(string, string)>,
                  refJobs: seq<(string, string)>, pdfJobs: seq<(string, string)>, transport: string -> Outcome): World
  {
    var w2 := FetchAll(FetchAll(w, tagJobs, transport), refJobs, transport);
    FetchAll(Mark(w2.(files := w2.files[path := page]), t), pdfJobs, transport)
  }

  /** The steps for delivered content, after the lesson request. */
  function Store(w: World, t: LessonTask, b: LessonBody, join: string -> string, transport: string -> Outcome): World
  {
    Stages(w, t, ArtifactPath(t), Page(PageText(t.title, Rewrite(Source(b), join, ImageName))),
           TagJobs(b, t.dir, join), RefJobs(b, t.dir, join), PdfJobs(PdfHrefs(b), t.dir, join), transport)
  }

  /** The lesson request of a run that finds no page. */
  function Requested(w: World, t: LessonTask): World
  {
    w.(requests := w.requests + [LessonApi(t.lessonId, t.courseId)])
  }

  /** The effect of `download_lesson` once the page is found missing. */
  function Fetched(w: World, t: LessonTask, reply: LessonReply, join: string -> string, transport: string -> Outcome): World
  {
    var w1 := Requested(w, t);
    if Delivered(reply) then Store(w1, t, reply.body, join, transport) else w1
  }

  /** The effect of `download_lesson`. */
  function LessonEffect(w: World, t: LessonTask, reply: LessonReply, join: string -> string, transport: string -> Outcome): World
  {
    if ArtifactPath(t) in w.files then
      if Completed(w.courses, t.slug, t.moduleId, t.lessonId) then w else Mark(w, t)
    else Fetched(w, t, reply, join, transport)
  }

  /** The two cases of `download_lesson`. */
  lemma LessonEffectCases(w: World, t: LessonTask, reply: LessonReply, join: string -> string, transport: string -> Outcome)
    ensures ArtifactPath(t) in w.files && Completed(w.courses, t.slug, t.moduleId, t.lessonId)
      ==> LessonEffect(w, t, reply, join, transport) == w
    ensures ArtifactPath(t) in w.files && !Completed(w.courses, t.slug, t.moduleId, t.lessonId)
      ==> LessonEffect(w, t, reply, join, transport) == Mark(w, t)
    ensures ArtifactPath(t) !in w.files ==> LessonEffect(w, t, reply, join, transport) == Fetched(w, t, reply, join, transport)
  {
  }

  /** The steps for delivered content only add requests. */
  lemma StagesRequests(w: World, t: LessonTask, path: string, page: Entry, tagJobs: seq<(string, string)>,
                       refJobs: seq<(string, string)>, pdfJobs: seq<(string, string)>, transport: string -> Outcome)
    ensures var r := Stages(w, t, path, page, tagJobs, refJobs, pdfJobs, transport);
      |w.requests| <= |r.requests| && r.requests[..|w.requests|] == w.requests
  {
    var w1 := FetchAll(w, tagJobs, transport);
    var w2 := FetchAll(w1, refJobs, transport);
    var w3 := Mark(w2.(files := w2.files[path := page]), t);
    FetchAllKeeps(w, tagJobs, transport);
    FetchAllKeeps(w1, refJobs, transport);
    FetchAllKeeps(w3, pdfJobs, transport);
    var r := FetchAll(w3, pdfJobs, transport);
    assert w2.requests[..|w.requests|] == w.requests by {
      assert w2.requests[..|w1.requests|] == w1.requests;
    }
    assert r.requests[..|w.requests|] == w.requests by {
      assert r.requests[..|w3.requests|] == w3.requests;
    }
  }

  /** The page written after the image downloads is still there at the end:
      the PDF downloads never touch an existing path. */
  lemma StagesPage(w: World, t: LessonTask, path: string, page: Entry, tagJobs: seq<(string, string)>,
                   refJobs: seq<(string, string)>, pdfJobs: seq<(string, string)>, transport: string -> Outcome)
    ensures var r := Stages(w, t, path, page, tagJobs, refJobs, pdfJobs, transport);
      path in r.files && r.files[path] == page
  {
    var w2 := FetchAll(FetchAll(w, tagJobs, transport), refJobs, transport);
    FetchAllKeeps(Mark(w2.(files := w2.files[path := page]), t), pdfJobs, transport);
  }

  /** The ledger changes once, by this lesson, and is saved once. */
  lemma StagesLedger(w: World, t: LessonTask, path: string, page: Entry, tagJobs: seq<(string, string)>,
                     refJobs: seq<(string, string)>, pdfJobs: seq<(string, string)>, transport: string -> Outcome)
    ensures var r := Stages(w, t, path, page, tagJobs, refJobs, pdfJobs, transport);
      r.courses == Marked(w.courses, t.slug, t.courseTitle, t.moduleId, t.lessonId) && r.saved == w.saved + [r.courses]
  {
    var w1 := FetchAll(w, tagJobs, transport);
    var w2 := FetchAll(w1, refJobs, transport);
    FetchAllKeeps(w, tagJobs, transport);
    FetchAllKeeps(w1, refJobs, transport);
    FetchAllKeeps(Mark(w2.(files := w2.files[path := page]), t), pdfJobs, transport);
  }

  /** Any other file that was there before is still there, unchanged. */
  lemma StagesFile(w: World, t: LessonTask, path: string, page: Entry, tagJobs: seq<(string, string)>,
                   refJobs: seq<(string, string)>, pdfJobs: seq<(string, string)>, transport: string -> Outcome, p: string)
    requires p in w.files && p != path
    ensures var r := Stages(w, t, path, page, tagJobs, refJobs, pdfJobs, transport);
      p in r.files && r.files[p] == w.files[p]
  {
    var w1 := FetchAll(w, tagJobs, transport);
    var w2 := FetchAll(w1, refJobs, transport);
    FetchAllKeeps(w, tagJobs, transport);
    FetchAllKeeps(w1, refJobs, transport);
    FetchAllKeeps(Mark(w2.(files := w2.files[path := page]), t), pdfJobs, transport);
  }

  /** An existing page means no request at all, and the lesson ends up in
      the ledger (saved only if it was not there already). */
  lemma LessonSkipsExisting(w: World, t: LessonTask, reply: LessonReply, join: string -> string, transport: string -> Outcome)
    requires ArtifactPath(t) in w.files
    ensures var r := LessonEffect(w, t, reply, join, transport);
      && r.files == w.files && r.requests == w.requests
      && Completed(r.courses, t.slug, t.moduleId, t.lessonId)
      && (Completed(w.courses, t.slug, t.moduleId, t.lessonId) ==> r == w)
      && (!Completed(w.courses, t.slug, t.moduleId, t.lessonId) ==>
            r.courses == Marked(w.courses, t.slug, t.courseTitle, t.moduleId, t.lessonId) && r.saved == w.saved + [r.courses])
  {
    LessonEffectCases(w, t, reply, join, transport);
  }

  /** A missing page is always requested, whatever the ledger says. */
  lemma LessonFetchesMissing(w: World, t: LessonTask, reply: LessonReply, join: string -> string, transport: string -> Outcome)
    requires ArtifactPath(t) !in w.files
    ensures var r := LessonEffect(w, t, reply, join, transport);
      |w.requests| < |r.requests| && r.requests[..|w.requests| + 1] == w.requests + [LessonApi(t.lessonId, t.courseId)]
  {
    LessonEffectCases(w, t, reply, join, transport);
    var w1 := Requested(w, t);
    if Delivered(reply) {
      var b := reply.body;
      StagesRequests(w1, t, ArtifactPath(t), Page(PageText(t.title, Rewrite(Source(b), join, ImageName))),
                     TagJobs(b, t.dir, join), RefJobs(b, t.dir, join), PdfJobs(PdfHrefs(b), t.dir, join), transport);
      var r := Store(w1, t, b, join, transport);
      assert r.requests[..|w1.requests|] == w1.requests;
      assert r.requests[..|w.requests| + 1] == w1.requests;
    }
  }

  /** Without delivered content (a failed request, another status, an empty
      body such as a video lesson's) nothing is written, marked or saved. */
  lemma LessonNotDelivered(w: World, t: LessonTask, reply: LessonReply, join: string -> string, transport: string -> Outcome)
    requires ArtifactPath(t) !in w.files && !Delivered(reply)
    ensures LessonEffect(w, t, reply, join, transport) == w.(requests := w.requests + [LessonApi(t.lessonId, t.courseId)])
  {
    LessonEffectCases(w, t, reply, join, transport);
  }

  /** With delivered content the page holds the title heading and the
      rewritten Markdown, and the lesson is marked and saved exactly once. */
  lemma LessonDelivered(w: World, t: LessonTask, reply: LessonReply, join: string -> string, transport: string -> Outcome)
    requires ArtifactPath(t) !in w.files && Delivered(reply)
    ensures var r := LessonEffect(w, t, reply, join, transport);
      && ArtifactPath(t) in r.files
      && r.files[ArtifactPath(t)] == Page(PageText(t.title, Rewrite(Source(reply.body), join, ImageName)))
      && r.courses == Marked(w.courses, t.slug, t.courseTitle, t.moduleId, t.lessonId)
      && r.saved == w.saved + [r.courses]
  {
    LessonEffectCases(w, t, reply, join, transport);
    var w1 := Requested(w, t);
    var b := reply.body;
    StagesPage(w1, t, ArtifactPath(t), Page(PageText(t.title, Rewrite(Source(b), join, ImageName))),
               TagJobs(b, t.dir, join), RefJobs(b, t.dir, join), PdfJobs(PdfHrefs(b), t.dir, join), transport);
    StagesLedger(w1, t, ArtifactPath(t), Page(PageText(t.title, Rewrite(Source(b), join, ImageName))),
                 TagJobs(b, t.dir, join), RefJobs(b, t.dir, join), PdfJobs(PdfHrefs(b), t.dir, join), transport);
  }

  /** A lesson run never alters a file that was there before. */
  lemma LessonKeepsFiles(w: World, t: LessonTask, reply: LessonReply, join: string -> string, transport: string -> Outcome, p: string)
    requires p in w.files
    ensures var r := LessonEffect(w, t, reply, join, transport);
      p in r.files && r.files[p] == w.files[p]
  {
    LessonEffectCases(w, t, reply, join, transport);
    if ArtifactPath(t) !in w.files && Delivered(reply) {
      var b := reply.body;
      StagesFile(Requested(w, t), t, ArtifactPath(t), Page(PageText(t.title, Rewrite(Source(b), join, ImageName))),
                 TagJobs(b, t.dir, join), RefJobs(b, t.dir, join), PdfJobs(PdfHrefs(b), t.dir, join), transport, p);
    }
  }

  /** The ledger only grows, and by this lesson at most. */
  lemma LessonLedger(w: World, t: LessonTask, reply: LessonReply, join: string -> string, transport: string -> Outcome,
                     s: string, m: int, l: int)
    ensures var r := LessonEffect(w, t, reply, join, transport);
      Completed(r.courses, s, m, l) <==>
        Completed(w.courses, s, m, l)
        || (s == t.slug && m == t.moduleId && l == t.lessonId && Completed(r.courses, t.slug, t.moduleId, t.lessonId))
  {
    LessonEffectCases(w, t, reply, join, transport);
    MarkedExactly(w.courses, t.slug, t.courseTitle, t.moduleId, t.lessonId, s, m, l);
    if ArtifactPath(t) !in w.files && Delivered(reply) {
      var b := reply.body;
      StagesLedger(Requested(w, t), t, ArtifactPath(t), Page(PageText(t.title, Rewrite(Source(b), join, ImageName))),
                   TagJobs(b, t.dir, join), RefJobs(b, t.dir, join), PdfJobs(PdfHrefs(b), t.dir, join), transport);
    }
  }

  /** The requests of the catalogue walk over `pages`. */
  function PageRequests(pages: seq<int>): (rs: seq<Request>)
    ensures |rs| == |pages|
    ensures forall k :: 0 <= k < |pages| ==> rs[k] == CoursesPage(pages[k])
  {
    seq(|pages|, k requires 0 <= k < |pages| => CoursesPage(pages[k]))
  }

  lemma PageRequestsSnoc(before: seq<Request>, pages: seq<int>, page: int)
    ensures (before + PageRequests(pages)) + [CoursesPage(page)] == before + PageRequests(pages + [page])
  {
  }

  /** One request of the catalogue walk, read off the recursive definition. */
  lemma WalkStep(fetch: int -> PageResponse, page: int, fuel: nat)
    requires StopsWithin(fetch, page, fuel)
    ensures fuel > 0
    ensures Next(fetch(page)).None? ==>
      Visited(fetch, page, fuel) == [page] && Collect(fetch, page, fuel) == Gained(fetch(page))
    ensures Next(fetch(page)).Some? ==>
      var n := Next(fetch(page)).value;
      && StopsWithin(fetch, n, fuel - 1)
      && Visited(fetch, page, fuel) == [page] + Visited(fetch, n, fuel - 1)
      && Collect(fetch, page, fuel) == Gained(fetch(page)) + Collect(fetch, n, fuel - 1)
  {
  }

  /** The walk ends after `page`: what was gathered before it plus what
      it yields is the whole catalogue. */
  lemma WalkStop(fetch: int -> PageResponse, page: int, fuel: nat, result: seq<Course>, pages: seq<int>,
                 total: seq<Course>, visited: seq<int>)
    requires StopsWithin(fetch, page, fuel) && Next(fetch(page)).None?
    requires result + Collect(fetch, page, fuel) == total
    requires pages + Visited(fetch, page, fuel) == visited
    ensures result + Gained(fetch(page)) == total
    ensures pages + [page] == visited
  {
    WalkStep(fetch, page, fuel);
  }

  /** The walk goes on after `page`. */
  lemma WalkOn(fetch: int -> PageResponse, page: int, fuel: nat, result: seq<Course>, pages: seq<int>,
                 total: seq<Course>, visited: seq<int>)
    requires StopsWithin(fetch, page, fuel) && Next(fetch(page)).Some?
    requires result + Collect(fetch, page, fuel) == total
    requires pages + Visited(fetch, page, fuel) == visited
    ensures var n := Next(fetch(page)).value;
      && StopsWithin(fetch, n, fuel - 1)
      && (result + Gained(fetch(page))) + Collect(fetch, n, fuel - 1) == total
      && (pages + [page]) + Visited(fetch, n, fuel - 1) == visited
  {
    WalkStep(fetch, page, fuel);
    var n := Next(fetch(page)).value;
    assert (result + Gained(fetch(page))) + Collect(fetch, n, fuel - 1) == result + Collect(fetch, page, fuel);
    assert (pages + [page]) + Visited(fetch, n, fuel - 1) == pages + Visited(fetch, page, fuel);
  }

  class Downloader {
    /** `self.progress["courses"]`. */
    var courses: Courses
    /** Every version of the ledger `_save_progress` has written, in order. */
    var saved: seq<Courses>
    /** Every GET request of the session, in order. */
    var requests: seq<Request>

    /** Construction loads the progress file: its ledger when the file
        exists and parses (a record without `courses` reads as an empty
        one), an empty ledger otherwise. */
    constructor(stored: Option<Courses>)
      ensures courses == (if stored.Some? then stored.value else map[])
      ensures saved == [] && requests == []
    {
      courses := if stored.Some? then stored.value else map[];
      saved := [];
      requests := [];
    }

    /** `_is_lesson_completed`. */
    predicate IsLessonCompleted(slug: string, moduleId: int, lessonId: int)
      reads this
    {
      Completed(courses, slug, moduleId, lessonId)
    }

    /** `_mark_lesson_completed`: create the course entry and the module's
        list when missing, append the lesson id unless listed, then save. */
    method MarkLessonCompleted(slug: string, title: string, moduleId: int, lessonId: int)
      modifies this
      ensures courses == Marked(old(courses), slug, title, moduleId, lessonId)
      ensures saved == old(saved) + [courses]
      ensures requests == old(requests)
      ensures IsLessonCompleted(slug, moduleId, lessonId)
    {
      ghost var before := courses;
      if slug !in courses {
        courses := courses[slug := CourseEntry(title, [], map[])];
      }
      var entry := courses[slug];
      var m := Decimal(moduleId);
      if m !in entry.completedLessons {
        entry := entry.(completedLessons := entry.completedLessons[m := []]);
      }
      var l := Decimal(lessonId);
      if l !in entry.completedLessons[m] {
        entry := entry.(completedLessons := entry.completedLessons[m := entry.completedLessons[m] + [l]]);
      }
      ghost var e0 := if slug in before then before[slug] else CourseEntry(title, [], map[]);
      ghost var l0 := if m in e0.completedLessons then e0.completedLessons[m] else [];
      assert entry.completedLessons == e0.completedLessons[m := if l in l0 then l0 else l0 + [l]];
      courses := courses[slug := entry];
      MarkedCompletes(before, slug, title, moduleId, lessonId);
      saved := saved + [courses];
    }

    /** `_download_file`. */
    method DownloadFile(fs: FileSystem, url: string, path: string, transport: string -> Outcome)
      modifies this, fs
      ensures World(courses, saved, fs.files, requests) == Fetch(old(World(courses, saved, fs.files, requests)), url, path, transport)
    {
      if path in fs.files {
        return;
      }
      requests := requests + [FileGet(url)];
      var outcome := transport(url);
      if outcome == Complete {
        fs.files := fs.files[path := Download(url, true)];
      } else if outcome == Interrupted {
        fs.files := fs.files[path := Download(url, false)];
      }
    }

    /** The downloads of a list, one after the other. */
    method DownloadAll(fs: FileSystem, jobs: seq<(string, string)>, transport: string -> Outcome)
      modifies this, fs
      ensures World(courses, saved, fs.files, requests) == FetchAll(old(World(courses, saved, fs.files, requests)), jobs, transport)
    {
      var i := 0;
      while i < |jobs|
        invariant 0 <= i <= |jobs|
        invariant World(courses, saved, fs.files, requests) == FetchAll(old(World(courses, saved, fs.files, requests)), jobs[..i], transport)
      {
        assert jobs[..i + 1][..i] == jobs[..i];
        DownloadFile(fs, jobs[i].0, jobs[i].1, transport);
        i := i + 1;
      }
      assert jobs[..i] == jobs;
    }

    /** The image-tag loop: derive each tag's name with `derive`, rename it
        when taken, download, and record it in `image_map`. `StoreLesson`
        passes `ImageName`. */
    method DownloadImageTags(fs: FileSystem, srcs: seq<string>, dir: string, join: string -> string, derive: string -> string,
                             transport: string -> Outcome)
      returns (imageMap: map<string, string>)
      modifies this, fs
      ensures imageMap == TagPass(srcs, dir, join, derive).1
      ensures World(courses, saved, fs.files, requests) == FetchAll(old(World(courses, saved, fs.files, requests)), TagPass(srcs, dir, join, derive).0, transport)
    {
      imageMap := map[];
      ghost var jobs: seq<(string, string)> := [];
      var i := 0;
      while i < |srcs|
        invariant 0 <= i <= |srcs|
        invariant jobs == TagPass(srcs[..i], dir, join, derive).0
        invariant imageMap == TagPass(srcs[..i], dir, join, derive).1
        invariant World(courses, saved, fs.files, requests) == FetchAll(old(World(courses, saved, fs.files, requests)), jobs, transport)
      {
        var src := srcs[i];
        TagPassStep(srcs[..i], src, dir, join, derive);
        assert srcs[..i + 1] == srcs[..i] + [src];
        if src != [] {
          var url := if StartsWith(src, "http") then src else join(src);
          var name := derive(url);
          if name in imageMap.Values {
            name := Renamed(name, |imageMap|);
          }
          DownloadFile(fs, url, PathJoin(dir, name), transport);
          FetchAllSnoc(old(World(courses, saved, fs.files, requests)), jobs, (url, PathJoin(dir, name)), transport);
          jobs := jobs + [(url, PathJoin(dir, name))];
          imageMap := imageMap[url := name];
        }
        i := i + 1;
      }
      assert srcs[..i] == srcs;
    }

    /** `download_lesson`. */
    method DownloadLesson(fs: FileSystem, t: LessonTask, reply: LessonReply, join: string -> string, transport: string -> Outcome)
      modifies this, fs
      ensures World(courses, saved, fs.files, requests) == LessonEffect(old(World(courses, saved, fs.files, requests)), t, reply, join, transport)
    {
      var mdPath := ArtifactPath(t);
      ghost var w := World(courses, saved, fs.files, requests);
      LessonEffectCases(w, t, reply, join, transport);
      if mdPath !in fs.files {
        FetchLesson(fs, t, reply, join, transport);
      } else if !IsLessonCompleted(t.slug, t.moduleId, t.lessonId) {
        MarkLessonCompleted(t.slug, t.courseTitle, t.moduleId, t.lessonId);
        assert World(courses, saved, fs.files, requests) == Mark(w, t);
      }
    }

    /** The part of `download_lesson` after the page was found missing: the
        lesson request, and the page and its files for delivered content. */
    method FetchLesson(fs: FileSystem, t: LessonTask, reply: LessonReply, join: string -> string, transport: string -> Outcome)
      modifies this, fs
      ensures World(courses, saved, fs.files, requests) == Fetched(old(World(courses, saved, fs.files, requests)), t, reply, join, transport)
    {
      requests := requests + [LessonApi(t.lessonId, t.courseId)];
      if reply.Unreachable? || reply.status != 200 {
        return;
      }
      var body := reply.body;
      if body.content != [] {
        StoreLesson(fs, t, body, join, transport);
      }
    }

    /** The part of `download_lesson` for delivered content. */
    method StoreLesson(fs: FileSystem, t: LessonTask, b: LessonBody, join: string -> string, transport: string -> Outcome)
      modifies this, fs
      ensures World(courses, saved, fs.files, requests) == Store(old(World(courses, saved, fs.files, requests)), t, b, join, transport)
    {
      ghost var w := World(courses, saved, fs.files, requests);
      var text;
      if b.isHtml {
        var _ := DownloadImageTags(fs, b.imgSrcs, t.dir, join, ImageName, transport);
        text := b.converted;
      } else {
        text := b.content;
      }
      assert World(courses, saved, fs.files, requests) == FetchAll(w, TagJobs(b, t.dir, join), transport);
      DownloadAll(fs, Located(t.dir, ImageFetches(Scan(text), join, ImageName)), transport);
      var page := PageText(t.title, Rewrite(text, join, ImageName));
      fs.files := fs.files[ArtifactPath(t) := Page(page)];
      MarkLessonCompleted(t.slug, t.courseTitle, t.moduleId, t.lessonId);
      var hrefs := if b.isHtml then b.pdfHrefs else PdfLinks(b.content);
      DownloadAll(fs, PdfJobs(hrefs, t.dir, join), transport);
    }

    /** `get_all_courses`: request pages from 1 on, collecting each page's
        courses, until a failure, a non-200 status, an empty page or a
        missing `next_page`. `bound` is a number of requests within which the
        remote ends the walk. */
    method GetAllCourses(fetch: int -> PageResponse, ghost bound: nat) returns (result: seq<Course>)
      requires StopsWithin(fetch, 1, bound)
      modifies this`requests
      ensures result == Collect(fetch, 1, bound)
      ensures requests == old(requests) + PageRequests(Visited(fetch, 1, bound))
      ensures courses == old(courses) && saved == old(saved)
    {
      result := [];
      var page := 1;
      ghost var fuel := bound;
      ghost var pages: seq<int> := [];
      ghost var total, visited := Collect(fetch, 1, bound), Visited(fetch, 1, bound);
      while true
        invariant StopsWithin(fetch, page, fuel)
        invariant result + Collect(fetch, page, fuel) == total
        invariant pages + Visited(fetch, page, fuel) == visited
        invariant requests == old(requests) + PageRequests(pages)
        decreases fuel
      {
        WalkStep(fetch, page, fuel);
        PageRequestsSnoc(old(requests), pages, page);
        requests := requests + [CoursesPage(page)];
        var r := fetch(page);
        if r.Failed? || r.status != 200 || r.courses == [] {
          WalkStop(fetch, page, fuel, result, pages, total, visited);
          assert result + Gained(r) == result;
          return;
        }
        ghost var prev := result;
        result := result + r.courses;
        if r.nextPage.None? || r.nextPage.value == 0 {
          WalkStop(fetch, page, fuel, prev, pages, total, visited);
          return;
        }
        WalkOn(fetch, page, fuel, prev, pages, total, visited);
        pages := pages + [page];
        page := r.nextPage.value;
        fuel := fuel - 1;
      }
    }
  }
}
