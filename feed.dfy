/** The driver of `generate_feed.py`: the directory layout of one report,
    the cache check, and the full pipeline on a cache miss, from the
    pre-filter to the cache write. Remote services are the values and
    functions of a `Services` record; the files are a `FileStore`. */
module Feed {
  import opened Common
  import opened Records
  import opened LinkExtractor
  import opened Files
  import opened Selection
  import opened Assets
  import opened Social

  // ---------------------------------------------------------------------
  // setup_directories
  // ---------------------------------------------------------------------

  /** The paths of one report. */
  datatype Layout = Layout(
    weekDir: string,
    reportFile: string,
    assetsDir: string,
    dataFile: string,
    relAssets: string)

  const CacheName := "papers_data.json"

  function AssetsFolder(prefix: string, dateStr: string): string
  {
    prefix + "_" + dateStr
  }

  /** The paths `setup_directories` derives from the output root, the file
      prefix and the formatted year, ISO week and date stamp. */
  function LayoutFor(root: string, prefix: string, year: string, week: string, dateStr: string): Layout
  {
    var weekDir := Slash(Slash(root, year), "week_" + week);
    var folder := AssetsFolder(prefix, dateStr);
    var assetsDir := Slash(Slash(weekDir, "assets"), folder);
    Layout(weekDir, Slash(weekDir, folder + ".md"), assetsDir, Slash(assetsDir, CacheName), "./assets/" + folder)
  }

  /** `setup_directories(root_dir, filename_prefix, date)`: creates the
      week and assets directories and returns the paths. */
  method SetupDirectories(fs: FileStore, root: string, prefix: string, year: string, week: string, dateStr: string)
    returns (layout: Layout)
    modifies fs
    ensures layout == LayoutFor(root, prefix, year, week, dateStr)
    ensures fs.dirs == old(fs.dirs) + {layout.weekDir, layout.assetsDir}
    ensures fs.files == old(fs.files)
  {
    layout := LayoutFor(root, prefix, year, week, dateStr);
    fs.MakeDirs(layout.weekDir);
    fs.MakeDirs(layout.assetsDir);
  }

  /** A `./`-relative path read from the directory `base`. */
  function Resolve(base: string, rel: string): string
  {
    if |rel| >= 2 && rel[..2] == "./" then Slash(base, rel[2..]) else Slash(base, rel)
  }

  /** The report sits in the week directory, and the relative asset path
      written into it, read from there, names the assets directory. */
  lemma RelativeAssetsResolve(root: string, prefix: string, year: string, week: string, dateStr: string)
    ensures var l := LayoutFor(root, prefix, year, week, dateStr);
      l.reportFile[..|l.weekDir| + 1] == l.weekDir + "/" &&
      Resolve(l.weekDir, l.relAssets) == l.assetsDir
  {
    var l := LayoutFor(root, prefix, year, week, dateStr);
    var folder := AssetsFolder(prefix, dateStr);
    assert l.relAssets[..2] == "./" && l.relAssets[2..] == "assets/" + folder;
    assert Slash(l.weekDir, "assets/" + folder) == Slash(Slash(l.weekDir, "assets"), folder);
  }

  /** The cache file is neither of the directories created beside it, nor
      the report. */
  lemma LayoutPathsDistinct(root: string, prefix: string, year: string, week: string, dateStr: string)
    ensures var l := LayoutFor(root, prefix, year, week, dateStr);
      l.dataFile != l.weekDir && l.dataFile != l.assetsDir && l.dataFile != l.reportFile &&
      l.reportFile != l.assetsDir
  {
    var l := LayoutFor(root, prefix, year, week, dateStr);
    assert |l.weekDir| < |l.assetsDir| < |l.dataFile|;
    assert l.dataFile[|l.dataFile| - 1] == 'n' && l.reportFile[|l.reportFile| - 1] == 'd';
  }

  // ---------------------------------------------------------------------
  // Per-paper asset bookkeeping
  // ---------------------------------------------------------------------

  /** The remote services, as values and functions of their requests. */
  datatype Services = Services(
    arxiv: seq<Paper>,                        // `get_arxiv_papers(...)`
    selection: IdsReply,                      // the reply to the selection prompt
    summaries: SummaryReply,                  // the reply to the summary prompt
    affiliations: string -> Option<string>,   // `get_author_affiliations(id)`
    fetch: string -> Option<seq<bv8>>,        // the GET of a PDF url; None when it raises
    renders: Content -> bool,                 // PyMuPDF renders the stored file's first page
    search: string -> XReply)                 // the recent-search request for a query

  function PdfName(paperId: string): string
  {
    paperId + ".pdf"
  }

  /** `paper.get('pdf_url') or paper['url'].replace('/abs/', '/pdf/') + ".pdf"`. */
  function PdfUrlFor(p: Paper): string
  {
    if p.pdfUrl.Some? && p.pdfUrl.value != "" then p.pdfUrl.value
    else ReplaceAll(p.url, "/abs/", "/pdf/") + ".pdf"
  }

  /** In `pre + "/abs/" + rest`, the first "/abs/" is the one after `pre`
      when `pre + "/abs"` holds none. */
  lemma AbsFoundAfterPrefix(u: string, pre: string, rest: string)
    requires u == pre + "/abs/" + rest && !Contains(pre + "/abs", "/abs/")
    ensures IndexOf(u, "/abs/") == Some(|pre|)
  {
    var w := pre + "/abs";
    assert u[..|w|] == w;
    forall k | 0 <= k < |pre| ensures !OccursAt(u, "/abs/", k) {
      assert !OccursAt(w, "/abs/", k);
      assert u[k..k + 5] == w[k..k + 5];
    }
    assert u[|pre|..|pre| + 5] == "/abs/";
    IndexOfFirst(u, "/abs/", |pre|);
  }

  /** An abstract-page url `<pre>/abs/<id>` without a `pdf_url` gives the
      PDF link `<pre>/pdf/<id>.pdf` of the same paper, whatever the scheme
      and host in `pre`. */
  lemma ArxivPdfUrl(p: Paper, pre: string, arxivId: string)
    requires p.pdfUrl.None? || p.pdfUrl == Some("")
    requires p.url == pre + "/abs/" + arxivId
    requires !Contains(pre + "/abs", "/abs/") && !Contains(arxivId, "/abs/")
    ensures PdfUrlFor(p) == pre + "/pdf/" + arxivId + ".pdf"
  {
    var u := p.url;
    AbsFoundAfterPrefix(u, pre, arxivId);
    ReplaceFirst(u, "/abs/", "/pdf/", |pre|);
    assert u[..|pre|] == pre && u[|pre| + 5..] == arxivId;
    ReplaceAbsent(arxivId, "/abs/", "/pdf/");
  }

  /** `affiliations if affiliations else ", ".join(paper.get('authors', []))`. */
  function AuthorsFull(p: Paper, affiliations: Option<string>): string
  {
    if affiliations.Some? && affiliations.value != "" then affiliations.value
    else Join(", ", if p.authors.Some? then p.authors.value else [])
  }

  /** Without an affiliation string, every author's name appears in
      `authors_full`. */
  lemma AuthorsFullNamesEveryAuthor(p: Paper, affiliations: Option<string>, k: nat)
    requires affiliations.None? || affiliations == Some("")
    requires p.authors.Some? && k < |p.authors.value|
    ensures Contains(AuthorsFull(p, affiliations), p.authors.value[k])
  {
    JoinContainsPart(", ", p.authors.value, k);
  }

  /** `path` exists as a file or a directory. */
  predicate Present(files: map<string, Content>, dirs: set<string>, path: string)
  {
    path in files || path in dirs
  }

  /** The preview step as `generate_feed.py` writes it: when no preview was
      made, `assets_dir / None` raises, shown as None; otherwise
      `pdf_preview` is set when the preview file exists. */
  function WithPreviewAsWritten(q: Paper, preview: Option<string>, rel: string, present: string -> bool): Option<Paper>
  {
    match preview
    case None => None
    case Some(name) => Some(if present(name) then q.(pdfPreview := Some(Slash(rel, name))) else q)
  }

  /** The preview step as evidently intended: a failed preview is skipped
      and the paper keeps no preview. */
  function WithPreviewCorrected(q: Paper, preview: Option<string>, rel: string, present: string -> bool): Paper
  {
    match preview
    case None => q
    case Some(name) => if present(name) then q.(pdfPreview := Some(Slash(rel, name))) else q
  }

  /** The corrected step agrees with the written one whenever the preview
      was made; where the written one raises, it leaves the paper as it is. */
  lemma WithPreviewDegrades(q: Paper, preview: Option<string>, rel: string, present: string -> bool)
    ensures WithPreviewAsWritten(q, preview, rel, present).None? <==> preview.None?
    ensures preview.Some? ==> WithPreviewAsWritten(q, preview, rel, present) == Some(WithPreviewCorrected(q, preview, rel, present))
    ensures preview.None? ==> WithPreviewCorrected(q, preview, rel, present) == q
  {
  }

  /** What the asset step records in a paper: `authors_full`; `local_pdf`,
      the relative copy on success and the remote url on failure;
      `pdf_preview` only after a success; nothing else. */
  predicate AssetsRecorded(p: Paper, q: Paper, downloaded: bool, layout: Layout, svc: Services)
  {
    var url := PdfUrlFor(p);
    q.authorsFull == Some(AuthorsFull(p, svc.affiliations(p.id))) &&
    (downloaded ==> q.localPdf == Some(Slash(layout.relAssets, PdfName(p.id)))) &&
    (!downloaded ==> q.localPdf == Some(url) && svc.fetch(url).None? && q.pdfPreview == p.pdfPreview) &&
    (q.pdfPreview == p.pdfPreview || q.pdfPreview == Some(Slash(layout.relAssets, PreviewName(p.id)))) &&
    q == p.(authorsFull := q.authorsFull, localPdf := q.localPdf, pdfPreview := q.pdfPreview)
  }

  /** The files behind what was recorded exist. */
  predicate AssetsPresent(p: Paper, q: Paper, downloaded: bool, layout: Layout,
                          files: map<string, Content>, dirs: set<string>)
  {
    (downloaded ==> Present(files, dirs, Slash(layout.assetsDir, PdfName(p.id)))) &&
    (q.pdfPreview != p.pdfPreview ==> Present(files, dirs, Slash(layout.assetsDir, PreviewName(p.id))))
  }

  /** `pdf_preview` after the asset step: set to the relative preview path
      when the downloaded PDF rendered, and untouched otherwise. */
  predicate PreviewRecorded(p: Paper, q: Paper, rendered: bool, layout: Layout)
  {
    q.pdfPreview == if rendered then Some(Slash(layout.relAssets, PreviewName(p.id))) else p.pdfPreview
  }

  /** The PDF stored for paper `id` opens and its first page renders. */
  predicate Renders(files: map<string, Content>, layout: Layout, svc: Services, id: string)
  {
    var path := Slash(layout.assetsDir, PdfName(id));
    path in files && svc.renders(files[path])
  }

  /** `path` names the same entry, or no entry, in both file maps. */
  predicate SameEntry(before: map<string, Content>, after: map<string, Content>, path: string)
  {
    (path in before <==> path in after) && (path in before ==> before[path] == after[path])
  }

  /** What `downloaded` tells about paper `p`: its PDF is in the assets
      directory, or the request for it failed. */
  predicate DownloadSettled(p: Paper, downloaded: bool, layout: Layout, svc: Services,
                            files: map<string, Content>, dirs: set<string>)
  {
    (downloaded ==> Present(files, dirs, Slash(layout.assetsDir, PdfName(p.id)))) &&
    (!downloaded ==> svc.fetch(PdfUrlFor(p)).None?)
  }

  /** What `download_pdf` answers for paper `p` on the files `files` before
      its step: True when something is at the PDF path already, without a
      request, and otherwise exactly when the request succeeds. */
  predicate DownloadDecided(p: Paper, downloaded: bool, layout: Layout, svc: Services,
                            files: map<string, Content>, dirs: set<string>)
  {
    downloaded <==> Present(files, dirs, Slash(layout.assetsDir, PdfName(p.id))) || svc.fetch(PdfUrlFor(p)).Some?
  }

  /** `DownloadDecided` for each paper of `ps`, with `downloaded[j]` the
      answer for `ps[j]` on the files the steps before it have left. */
  predicate DownloadsDecided(ps: seq<Paper>, downloaded: seq<bool>, layout: Layout, svc: Services,
                             files0: map<string, Content>, dirs: set<string>)
    requires |downloaded| == |ps|
    decreases |ps|
  {
    var n := |ps|;
    n == 0 ||
    (DownloadsDecided(ps[..n - 1], downloaded[..n - 1], layout, svc, files0, dirs) &&
     DownloadDecided(ps[n - 1], downloaded[n - 1], layout, svc, AssetFiles(files0, dirs, layout, svc, ps[..n - 1]), dirs))
  }

  /** Index by index: the answer for each paper was decided on the files
      the steps before it have left. */
  lemma DownloadsDecidedMeaning(ps: seq<Paper>, downloaded: seq<bool>, layout: Layout, svc: Services,
                                files0: map<string, Content>, dirs: set<string>)
    requires |downloaded| == |ps|
    ensures DownloadsDecided(ps, downloaded, layout, svc, files0, dirs) <==>
      forall j :: 0 <= j < |ps| ==>
        DownloadDecided(ps[j], downloaded[j], layout, svc, AssetFiles(files0, dirs, layout, svc, ps[..j]), dirs)
  {
    if DownloadsDecided(ps, downloaded, layout, svc, files0, dirs) {
      forall j | 0 <= j < |ps|
        ensures DownloadDecided(ps[j], downloaded[j], layout, svc, AssetFiles(files0, dirs, layout, svc, ps[..j]), dirs)
      {
        DownloadsDecidedAt(ps, downloaded, layout, svc, files0, dirs, j);
      }
    }
    if forall j :: 0 <= j < |ps| ==>
        DownloadDecided(ps[j], downloaded[j], layout, svc, AssetFiles(files0, dirs, layout, svc, ps[..j]), dirs)
    {
      DownloadsDecidedOfEach(ps, downloaded, layout, svc, files0, dirs);
    }
  }

  lemma {:induction false} DownloadsDecidedAt(ps: seq<Paper>, downloaded: seq<bool>, layout: Layout, svc: Services,
                                              files0: map<string, Content>, dirs: set<string>, j: nat)
    requires |downloaded| == |ps| && DownloadsDecided(ps, downloaded, layout, svc, files0, dirs) && j < |ps|
    ensures DownloadDecided(ps[j], downloaded[j], layout, svc, AssetFiles(files0, dirs, layout, svc, ps[..j]), dirs)
    decreases |ps|
  {
    var n := |ps|;
    if j < n - 1 {
      var init, dinit := ps[..n - 1], downloaded[..n - 1];
      DownloadsDecidedAt(init, dinit, layout, svc, files0, dirs, j);
      assert init[j] == ps[j] && dinit[j] == downloaded[j] && init[..j] == ps[..j];
    }
  }

  lemma {:induction false} DownloadsDecidedOfEach(ps: seq<Paper>, downloaded: seq<bool>, layout: Layout, svc: Services,
                                                  files0: map<string, Content>, dirs: set<string>)
    requires |downloaded| == |ps|
    requires forall j :: 0 <= j < |ps| ==>
      DownloadDecided(ps[j], downloaded[j], layout, svc, AssetFiles(files0, dirs, layout, svc, ps[..j]), dirs)
    ensures DownloadsDecided(ps, downloaded, layout, svc, files0, dirs)
    decreases |ps|
  {
    var n := |ps|;
    if n > 0 {
      var init, dinit := ps[..n - 1], downloaded[..n - 1];
      forall j | 0 <= j < n - 1
        ensures DownloadDecided(init[j], dinit[j], layout, svc, AssetFiles(files0, dirs, layout, svc, init[..j]), dirs)
      {
        assert init[j] == ps[j] && dinit[j] == downloaded[j] && init[..j] == ps[..j];
      }
      DownloadsDecidedOfEach(init, dinit, layout, svc, files0, dirs);
      assert DownloadDecided(ps[n - 1], downloaded[n - 1], layout, svc, AssetFiles(files0, dirs, layout, svc, init), dirs);
    }
  }

  /** One more decided download extends the decided papers. */
  lemma DownloadsDecidedStep(ps: seq<Paper>, downloaded: seq<bool>, layout: Layout, svc: Services,
                             files0: map<string, Content>, dirs: set<string>, p: Paper, d: bool)
    requires |downloaded| == |ps| && DownloadsDecided(ps, downloaded, layout, svc, files0, dirs)
    requires DownloadDecided(p, d, layout, svc, AssetFiles(files0, dirs, layout, svc, ps), dirs)
    ensures DownloadsDecided(ps + [p], downloaded + [d], layout, svc, files0, dirs)
  {
    assert (ps + [p])[..|ps|] == ps && (downloaded + [d])[..|ps|] == downloaded;
  }

  /** The files after the asset step for paper `p`: the PDF is stored when
      nothing is at its path and the request succeeds, and the preview is
      written when the stored PDF renders. */
  function StepFiles(files: map<string, Content>, dirs: set<string>, layout: Layout, svc: Services, p: Paper): map<string, Content>
  {
    var pdfPath := Slash(layout.assetsDir, PdfName(p.id));
    var fetched :=
      if Present(files, dirs, pdfPath) then files
      else match svc.fetch(PdfUrlFor(p))
        case None => files
        case Some(body) => files[pdfPath := Download(body)];
    if pdfPath in fetched && svc.renders(fetched[pdfPath])
    then fetched[Slash(layout.assetsDir, PreviewName(p.id)) := PagePreview(fetched[pdfPath])]
    else fetched
  }

  /** The files after the asset step for the papers `ps`, in order. */
  function AssetFiles(files: map<string, Content>, dirs: set<string>, layout: Layout, svc: Services,
                      ps: seq<Paper>): map<string, Content>
    decreases |ps|
  {
    if ps == [] then files
    else StepFiles(AssetFiles(files, dirs, layout, svc, ps[..|ps| - 1]), dirs, layout, svc, ps[|ps| - 1])
  }

  /** `path` is the preview path of one of the papers `ps`. */
  predicate IsPreviewOf(layout: Layout, ps: seq<Paper>, path: string)
  {
    exists j :: 0 <= j < |ps| && path == Slash(layout.assetsDir, PreviewName(ps[j].id))
  }

  /** `path` was created by the asset step for one of the papers `ps`: it is
      that paper's preview, or its PDF holding the body of its request. */
  predicate CreatedBy(layout: Layout, svc: Services, ps: seq<Paper>, path: string, c: Content)
  {
    exists j :: 0 <= j < |ps| &&
      (path == Slash(layout.assetsDir, PreviewName(ps[j].id)) ||
       (path == Slash(layout.assetsDir, PdfName(ps[j].id)) && svc.fetch(PdfUrlFor(ps[j])).Some? &&
        c == Download(svc.fetch(PdfUrlFor(ps[j])).value)))
  }

  /** One asset step removes nothing, rewrites only the paper's preview, and
      creates only the paper's PDF, holding the body of its request, and
      its preview. */
  lemma StepFilesFrame(files: map<string, Content>, dirs: set<string>, layout: Layout, svc: Services, p: Paper)
    ensures var after := StepFiles(files, dirs, layout, svc, p);
      files.Keys <= after.Keys &&
      (forall path :: path in files && path != Slash(layout.assetsDir, PreviewName(p.id)) ==> after[path] == files[path]) &&
      (forall path :: path in after && path !in files ==>
        path == Slash(layout.assetsDir, PreviewName(p.id)) ||
        (path == Slash(layout.assetsDir, PdfName(p.id)) && svc.fetch(PdfUrlFor(p)).Some? &&
         after[path] == Download(svc.fetch(PdfUrlFor(p)).value)))
  {
    AssetNamesDistinct(layout, p.id, p.id);
  }

  /** The asset loop removes nothing, rewrites only the papers' previews,
      and creates only their PDFs, each holding the body of its request,
      and their previews. */
  lemma {:induction false} AssetFilesFrame(files: map<string, Content>, dirs: set<string>, layout: Layout,
                                           svc: Services, ps: seq<Paper>)
    ensures var after := AssetFiles(files, dirs, layout, svc, ps);
      files.Keys <= after.Keys &&
      (forall path :: path in files && !IsPreviewOf(layout, ps, path) ==> after[path] == files[path]) &&
      (forall path :: path in after && path !in files ==> CreatedBy(layout, svc, ps, path, after[path]))
    decreases |ps|
  {
    if ps != [] {
      var init, p := ps[..|ps| - 1], ps[|ps| - 1];
      var mid := AssetFiles(files, dirs, layout, svc, init);
      var after := StepFiles(mid, dirs, layout, svc, p);
      assert AssetFiles(files, dirs, layout, svc, ps) == after;
      AssetFilesFrame(files, dirs, layout, svc, init);
      StepFilesFrame(mid, dirs, layout, svc, p);
      forall path | path in files && !IsPreviewOf(layout, ps, path)
        ensures after[path] == files[path]
      {
        assert path != Slash(layout.assetsDir, PreviewName(ps[|ps| - 1].id));
      }
      forall path | path in after && path !in files
        ensures CreatedBy(layout, svc, ps, path, after[path])
      {
        if path in mid {
          var j :| 0 <= j < |init| &&
            (path == Slash(layout.assetsDir, PreviewName(init[j].id)) ||
             (path == Slash(layout.assetsDir, PdfName(init[j].id)) && svc.fetch(PdfUrlFor(init[j])).Some? &&
              mid[path] == Download(svc.fetch(PdfUrlFor(init[j])).value)));
          assert ps[j] == init[j];
          if path != Slash(layout.assetsDir, PreviewName(init[j].id)) {
            AssetNamesDistinct(layout, init[j].id, p.id);
          }
        } else {
          assert ps[|ps| - 1] == p;
        }
      }
    }
  }

  /** The body of the asset loop for one paper. `crashed` is the exception
      the preview check raises when a downloaded PDF does not render. */
  method ProcessAssets(fs: FileStore, p: Paper, layout: Layout, svc: Services)
    returns (q: Paper, ghost downloaded: bool, crashed: bool)
    modifies fs
    ensures AssetStep(p, q, downloaded, crashed, layout, svc, old(fs.files), old(fs.dirs), fs.files)
    ensures fs.files == StepFiles(old(fs.files), old(fs.dirs), layout, svc, p)
    ensures fs.dirs == old(fs.dirs)
  {
    AssetNamesDistinct(layout, p.id, p.id);
    ghost var start := fs.files;
    q := p.(authorsFull := Some(AuthorsFull(p, svc.affiliations(p.id))));
    var url := PdfUrlFor(q);
    var pdfPath := Slash(layout.assetsDir, PdfName(p.id));
    var ok;
    ghost var fetched;
    ok, fetched := DownloadPdf(fs, url, pdfPath, svc.fetch);
    downloaded := ok;
    crashed := false;
    if ok {
      q := q.(localPdf := Some(Slash(layout.relAssets, PdfName(p.id))));
      q, crashed := PreviewStep(fs, q, layout, svc);
    } else {
      q := q.(localPdf := Some(url));
    }
    forall id | Renders(start, layout, svc, id) ensures Renders(fs.files, layout, svc, id) {
      AssetNamesDistinct(layout, id, p.id);
    }
  }

  /** The preview step after a successful download, as written: when the
      stored PDF does not render, the check of the preview path raises. */
  method PreviewStep(fs: FileStore, q: Paper, layout: Layout, svc: Services)
    returns (r: Paper, crashed: bool)
    modifies fs
    ensures crashed <==> !Renders(old(fs.files), layout, svc, q.id)
    ensures crashed ==> r == q && fs.files == old(fs.files)
    ensures !crashed ==>
      var pdfPath := Slash(layout.assetsDir, PdfName(q.id));
      r == q.(pdfPreview := Some(Slash(layout.relAssets, PreviewName(q.id)))) &&
      fs.files == old(fs.files)[Slash(layout.assetsDir, PreviewName(q.id)) := PagePreview(old(fs.files)[pdfPath])]
    ensures fs.dirs == old(fs.dirs)
  {
    var pdfPath := Slash(layout.assetsDir, PdfName(q.id));
    var preview := GeneratePdfPreview(fs, pdfPath, q.id, layout.assetsDir, svc.renders);
    var files, dirs := fs.files, fs.dirs;
    var shown := WithPreviewAsWritten(q, preview, layout.relAssets, name => Present(files, dirs, Slash(layout.assetsDir, name)));
    if shown.Some? {
      r, crashed := shown.value, false;
    } else {
      r, crashed := q, true;
    }
  }

  /** What one asset step promises about paper `p`, its processed copy `q`
      and the files before and after it: the assets are recorded and
      present, `downloaded` is what `download_pdf` answers, the step raises
      exactly when the downloaded PDF does not
      render, and no file is removed, no rendering PDF changes and the cache
      file is untouched. */
  ghost predicate AssetStep(p: Paper, q: Paper, downloaded: bool, crashed: bool, layout: Layout, svc: Services,
                      files: map<string, Content>, dirs: set<string>, files': map<string, Content>)
  {
    DownloadDecided(p, downloaded, layout, svc, files, dirs) &&
    AssetsRecorded(p, q, downloaded, layout, svc) &&
    PreviewRecorded(p, q, downloaded && !crashed, layout) &&
    AssetsPresent(p, q, downloaded, layout, files', dirs) &&
    (crashed <==> downloaded && !Renders(files', layout, svc, p.id)) &&
    files.Keys <= files'.Keys &&
    (forall id :: Renders(files, layout, svc, id) ==> Renders(files', layout, svc, id)) &&
    SameEntry(files, files', Slash(layout.assetsDir, CacheName))
  }

  /** The state of the asset loop once the first `|downloaded|` papers of
      `orig` are processed into `cur`: each has its assets recorded and
      present, only the last may have crashed, the rest are untouched, and
      no file is removed and the cache file is untouched. */
  predicate AssetsDone(orig: seq<Paper>, cur: seq<Paper>, downloaded: seq<bool>, crashed: bool, layout: Layout,
                       svc: Services, files0: map<string, Content>, dirs: set<string>, files: map<string, Content>)
  {
    var n := |downloaded|;
    n <= |orig| == |cur| &&
    (forall j :: 0 <= j < n ==> AssetsRecorded(orig[j], cur[j], downloaded[j], layout, svc)) &&
    (forall j :: 0 <= j < n ==> PreviewRecorded(orig[j], cur[j], downloaded[j] && !(crashed && j == n - 1), layout)) &&
    (forall j :: 0 <= j < n ==> AssetsPresent(orig[j], cur[j], downloaded[j], layout, files, dirs)) &&
    (forall j :: 0 <= j < n && downloaded[j] && !Renders(files, layout, svc, orig[j].id) ==> crashed && j == n - 1) &&
    (crashed ==> n > 0 && downloaded[n - 1] && !Renders(files, layout, svc, orig[n - 1].id)) &&
    (forall j :: n <= j < |orig| ==> cur[j] == orig[j]) &&
    files0.Keys <= files.Keys && SameEntry(files0, files, Slash(layout.assetsDir, CacheName))
  }

  /** One more step without a crash before it keeps the loop state. */
  lemma AssetsDoneStep(orig: seq<Paper>, cur: seq<Paper>, downloaded: seq<bool>, layout: Layout, svc: Services,
                       files0: map<string, Content>, dirs: set<string>, files: map<string, Content>,
                       q: Paper, d: bool, crashed: bool, files': map<string, Content>)
    requires AssetsDone(orig, cur, downloaded, false, layout, svc, files0, dirs, files)
    requires |downloaded| < |orig|
    requires AssetStep(orig[|downloaded|], q, d, crashed, layout, svc, files, dirs, files')
    ensures AssetsDone(orig, cur[|downloaded| := q], downloaded + [d], crashed, layout, svc, files0, dirs, files')
  {
    var n := |downloaded|;
    var cur', downloaded' := cur[n := q], downloaded + [d];
    forall j | 0 <= j < n
      ensures AssetsPresent(orig[j], cur'[j], downloaded'[j], layout, files', dirs)
      ensures downloaded'[j] ==> Renders(files', layout, svc, orig[j].id)
    {
      assert cur'[j] == cur[j] && downloaded'[j] == downloaded[j];
    }
  }

  /** The loop state's facts about the processed paper at `j`. */
  lemma AssetsDoneAt(orig: seq<Paper>, cur: seq<Paper>, downloaded: seq<bool>, crashed: bool, layout: Layout,
                     svc: Services, files0: map<string, Content>, dirs: set<string>, files: map<string, Content>, j: int)
    requires AssetsDone(orig, cur, downloaded, crashed, layout, svc, files0, dirs, files)
    requires 0 <= j < |downloaded|
    ensures AssetsRecorded(orig[j], cur[j], downloaded[j], layout, svc)
    ensures PreviewRecorded(orig[j], cur[j], downloaded[j] && !(crashed && j == |downloaded| - 1), layout)
    ensures AssetsPresent(orig[j], cur[j], downloaded[j], layout, files, dirs)
    ensures downloaded[j] && !Renders(files, layout, svc, orig[j].id) <==> crashed && j == |downloaded| - 1
  {
  }

  /** The asset loop over the enriched papers, updating each in place. It
      ends at the first paper whose downloaded PDF does not render: the
      exception leaves the rest of the papers as they were. */
  method AttachAssets(fs: FileStore, a: array<Paper>, layout: Layout, svc: Services)
    returns (ghost downloaded: seq<bool>, crashed: bool)
    modifies fs, a
    ensures |downloaded| <= a.Length && (!crashed ==> |downloaded| == a.Length)
    ensures DownloadsDecided(old(a[..])[..|downloaded|], downloaded, layout, svc, old(fs.files), old(fs.dirs))
    ensures forall i :: 0 <= i < |downloaded| ==> AssetsRecorded(old(a[i]), a[i], downloaded[i], layout, svc)
    ensures forall i :: 0 <= i < |downloaded| ==>
      PreviewRecorded(old(a[i]), a[i], downloaded[i] && !(crashed && i == |downloaded| - 1), layout)
    ensures forall i :: 0 <= i < |downloaded| ==> AssetsPresent(old(a[i]), a[i], downloaded[i], layout, fs.files, fs.dirs)
    ensures crashed <==> exists i :: 0 <= i < |downloaded| && downloaded[i] && !Renders(fs.files, layout, svc, old(a[i]).id)
    ensures forall j :: |downloaded| <= j < a.Length ==> a[j] == old(a[j])
    ensures fs.files == AssetFiles(old(fs.files), old(fs.dirs), layout, svc, old(a[..])[..|downloaded|])
    ensures old(fs.files).Keys <= fs.files.Keys && fs.dirs == old(fs.dirs)
    ensures SameEntry(old(fs.files), fs.files, Slash(layout.assetsDir, CacheName))
  {
    ghost var orig := a[..];
    downloaded, crashed := AssetLoop(fs, a, layout, svc);
    ghost var fin := a[..];
    forall j | 0 <= j < |downloaded|
      ensures AssetsRecorded(old(a[j]), a[j], downloaded[j], layout, svc)
      ensures PreviewRecorded(old(a[j]), a[j], downloaded[j] && !(crashed && j == |downloaded| - 1), layout)
      ensures AssetsPresent(old(a[j]), a[j], downloaded[j], layout, fs.files, fs.dirs)
      ensures downloaded[j] && !Renders(fs.files, layout, svc, old(a[j]).id) ==> crashed
    {
      AssetsDoneAt(orig, fin, downloaded, crashed, layout, svc, old(fs.files), old(fs.dirs), fs.files, j);
      assert orig[j] == old(a[j]) && fin[j] == a[j];
    }
    if crashed {
      var n := |downloaded| - 1;
      AssetsDoneAt(orig, fin, downloaded, crashed, layout, svc, old(fs.files), old(fs.dirs), fs.files, n);
      assert orig[n] == old(a[n]);
    }
    forall j | |downloaded| <= j < a.Length ensures a[j] == old(a[j]) {
      assert orig[j] == old(a[j]) && fin[j] == a[j];
    }
  }

  /** The asset loop itself, stated on the array's contents before and
      after it. */
  method AssetLoop(fs: FileStore, a: array<Paper>, layout: Layout, svc: Services)
    returns (ghost downloaded: seq<bool>, crashed: bool)
    modifies fs, a
    ensures |downloaded| <= a.Length && (!crashed ==> |downloaded| == a.Length)
    ensures AssetsDone(old(a[..]), a[..], downloaded, crashed, layout, svc, old(fs.files), old(fs.dirs), fs.files)
    ensures DownloadsDecided(old(a[..])[..|downloaded|], downloaded, layout, svc, old(fs.files), old(fs.dirs))
    ensures fs.files == AssetFiles(old(fs.files), old(fs.dirs), layout, svc, old(a[..])[..|downloaded|])
    ensures fs.dirs == old(fs.dirs)
  {
    ghost var orig := a[..];
    downloaded := [];
    crashed := false;
    var i := 0;
    while i < a.Length && !crashed
      invariant 0 <= i <= a.Length && |downloaded| == i && fs.dirs == old(fs.dirs)
      invariant AssetsDone(orig, a[..], downloaded, crashed, layout, svc, old(fs.files), old(fs.dirs), fs.files)
      invariant fs.files == AssetFiles(old(fs.files), old(fs.dirs), layout, svc, orig[..i])
      invariant DownloadsDecided(orig[..i], downloaded, layout, svc, old(fs.files), old(fs.dirs))
    {
      ghost var before, cur := fs.files, a[..];
      var q;
      ghost var d;
      q, d, crashed := ProcessAssets(fs, a[i], layout, svc);
      AssetsDoneStep(orig, cur, downloaded, layout, svc, old(fs.files), old(fs.dirs), before, q, d, crashed, fs.files);
      DownloadsDecidedStep(orig[..i], downloaded, layout, svc, old(fs.files), old(fs.dirs), orig[i], d);
      assert orig[..i + 1][..i] == orig[..i] && orig[..i] + [orig[i]] == orig[..i + 1];
      a[i] := q;
      assert a[..] == cur[i := q];
      downloaded := downloaded + [d];
      i := i + 1;
    }
  }

  /** The discussion loop: every paper gets the results of its title's
      search. */
  method AttachTweets(a: array<Paper>, token: Option<string>, search: string -> XReply)
    requires !NoToken(token)
    modifies a
    ensures forall i :: 0 <= i < a.Length ==>
      a[i] == old(a[i]).(tweets := Some(TweetsFrom(search(Query(old(a[i]).title)))))
  {
    for i := 0 to a.Length
      invariant forall j :: 0 <= j < i ==> a[j] == old(a[j]).(tweets := Some(TweetsFrom(search(Query(old(a[j]).title)))))
      invariant forall j :: i <= j < a.Length ==> a[j] == old(a[j])
    {
      AttachTweet(a, i, token, search);
    }
  }

  /** One turn of the discussion loop. */
  method AttachTweet(a: array<Paper>, i: nat, token: Option<string>, search: string -> XReply)
    requires !NoToken(token) && i < a.Length
    modifies a
    ensures a[i] == old(a[i]).(tweets := Some(TweetsFrom(search(Query(old(a[i]).title)))))
    ensures forall j :: 0 <= j < a.Length && j != i ==> a[j] == old(a[j])
  {
    var found := FindTweetsForPaper(a[i].title, token, search);
    a[i] := a[i].(tweets := Some(found));
  }

  // ---------------------------------------------------------------------
  // main
  // ---------------------------------------------------------------------

  /** What `main` reads from the configuration file and the command line;
      the report date arrives already formatted. */
  datatype Config = Config(
    root: string,
    prefix: string,
    year: string,
    week: string,
    dateStr: string,
    force: bool,                   // `--force`
    requireProjectLink: bool,      // `research.require_project_link`
    interests: string,
    maxSelected: int,              // `research.max_selected_papers`
    xBearer: Option<string>)       // `keys.x_bearer`

  /** How a run ends before the report: an early exit, an exception, or
      the papers handed to the report writer. */
  datatype Outcome =
    | NoPapers
    | NoLinkedPapers
    | NothingSelected
    | CacheUnreadable                // `json.load` of the cache path raises
    | Crashed                        // the asset step raises before the cache write
    | Reported(papers: seq<Paper>)

  function LayoutOf(cfg: Config): Layout
  {
    LayoutFor(cfg.root, cfg.prefix, cfg.year, cfg.week, cfg.dateStr)
  }

  /** What reading the cache at `path` gives. */
  function CachedOutcome(files: map<string, Content>, path: string): Outcome
  {
    if path in files && files[path].PapersJson? then Reported(files[path].papers) else CacheUnreadable
  }

  /** The listing after the optional project-link pre-filter. */
  function Prefiltered(cfg: Config, listing: seq<Paper>): seq<Paper>
  {
    if cfg.requireProjectLink then Filter(listing, (p: Paper) => HasProjectLink(FilterPattern, p))
    else listing
  }

  /** The papers the selection step keeps. */
  function Selected(cfg: Config, svc: Services): seq<Paper>
  {
    FilterPapers(Prefiltered(cfg, svc.arxiv), cfg.interests, svc.selection, cfg.maxSelected).papers
  }

  /** The early exit a cache miss takes, if any. */
  function EarlyExit(cfg: Config, svc: Services): Option<Outcome>
  {
    if svc.arxiv == [] then Some(NoPapers)
    else if cfg.requireProjectLink && Prefiltered(cfg, svc.arxiv) == [] then Some(NoLinkedPapers)
    else if Selected(cfg, svc) == [] then Some(NothingSelected)
    else None
  }

  /** `q` is what the pipeline makes of the selected paper `s`: enriched,
      its assets recorded, and, with a bearer token, its discussion
      attached. */
  predicate FinalPaper(s: Paper, q: Paper, downloaded: bool, layout: Layout, svc: Services,
                       token: Option<string>)
  {
    var e := Enriched(s, svc.summaries);
    AssetsRecorded(e, q.(tweets := e.tweets), downloaded, layout, svc) &&
    (downloaded ==> q.pdfPreview == Some(Slash(layout.relAssets, PreviewName(s.id)))) &&
    q.tweets == if NoToken(token) then e.tweets else Some(TweetsFrom(svc.search(Query(e.title))))
  }

  /** `main()` from the directory setup to the cache write. */
  method Run(fs: FileStore, cfg: Config, svc: Services)
    returns (out: Outcome, ghost remote: bool, ghost downloaded: seq<bool>)
    modifies fs
    ensures fs.dirs == old(fs.dirs) + {LayoutOf(cfg).weekDir, LayoutOf(cfg).assetsDir}
    ensures remote <==> cfg.force || !old(fs.Exists(LayoutOf(cfg).dataFile))
    ensures !remote ==> fs.files == old(fs.files) && out == CachedOutcome(old(fs.files), LayoutOf(cfg).dataFile)
    ensures remote && EarlyExit(cfg, svc).Some? ==> out == EarlyExit(cfg, svc).value && fs.files == old(fs.files)
    ensures remote && EarlyExit(cfg, svc).None? ==>
      var layout, sel := LayoutOf(cfg), Selected(cfg, svc);
      (out.Reported? || out == Crashed) && |downloaded| <= |sel| &&
      old(fs.files).Keys <= fs.files.Keys &&
      DownloadsDecided(EnrichedAll(sel, svc.summaries)[..|downloaded|], downloaded, layout, svc, old(fs.files), fs.dirs) &&
      (forall i :: 0 <= i < |downloaded| ==>
        DownloadSettled(Enriched(sel[i], svc.summaries), downloaded[i], layout, svc, fs.files, fs.dirs)) &&
      (out == Crashed <==>
        exists i :: 0 <= i < |downloaded| && downloaded[i] && !Renders(fs.files, layout, svc, sel[i].id)) &&
      (out == Crashed ==>
        fs.files == AssetFiles(old(fs.files), fs.dirs, layout, svc, EnrichedAll(sel, svc.summaries)[..|downloaded|]) &&
        SameEntry(old(fs.files), fs.files, layout.dataFile)) &&
      (out.Reported? ==>
        fs.files == AssetFiles(old(fs.files), fs.dirs, layout, svc, EnrichedAll(sel, svc.summaries))[layout.dataFile := PapersJson(out.papers)] &&
        |out.papers| == |sel| == |downloaded| &&
        (forall i :: 0 <= i < |sel| ==>
          FinalPaper(sel[i], out.papers[i], downloaded[i], layout, svc, cfg.xBearer) &&
          AssetsPresent(Enriched(sel[i], svc.summaries), out.papers[i], downloaded[i], layout, fs.files, fs.dirs)) &&
        fs.Exists(layout.dataFile) && CachedOutcome(fs.files, layout.dataFile) == out)
  {
    var layout := SetupDirectories(fs, cfg.root, cfg.prefix, cfg.year, cfg.week, cfg.dateStr);
    LayoutPathsDistinct(cfg.root, cfg.prefix, cfg.year, cfg.week, cfg.dateStr);
    downloaded := [];
    if fs.Exists(layout.dataFile) && !cfg.force {
      remote := false;
      if layout.dataFile in fs.files && fs.files[layout.dataFile].PapersJson? {
        out := Reported(fs.files[layout.dataFile].papers);
      } else {
        out := CacheUnreadable;
      }
      return;
    }
    remote := true;
    var raw := svc.arxiv;
    if raw == [] {
      out := NoPapers;
      return;
    }
    if cfg.requireProjectLink {
      raw := Filter(raw, (p: Paper) => HasProjectLink(FilterPattern, p));
      if raw == [] {
        out := NoLinkedPapers;
        return;
      }
    }
    var selected := FilterPapers(raw, cfg.interests, svc.selection, cfg.maxSelected).papers;
    if selected == [] {
      out := NothingSelected;
      return;
    }
    out, downloaded := ProcessSelected(fs, selected, layout, svc, cfg.xBearer);
  }

  /** The selected papers as `enrich_with_summaries` returns them. */
  function EnrichedAll(ps: seq<Paper>, reply: SummaryReply): seq<Paper>
  {
    seq(|ps|, i requires 0 <= i < |ps| => Enriched(ps[i], reply))
  }

  /** The cache-miss pipeline after the selection: summaries, assets,
      discussion, and the cache write. A downloaded PDF that does not
      render ends it before the discussion and the cache write. */
  method ProcessSelected(fs: FileStore, selected: seq<Paper>, layout: Layout, svc: Services,
                         token: Option<string>)
    returns (out: Outcome, ghost downloaded: seq<bool>)
    requires layout.dataFile == Slash(layout.assetsDir, CacheName)
    modifies fs
    ensures out.Reported? || out == Crashed
    ensures |downloaded| <= |selected|
    ensures DownloadsDecided(EnrichedAll(selected, svc.summaries)[..|downloaded|], downloaded, layout, svc, old(fs.files), fs.dirs)
    ensures forall i :: 0 <= i < |downloaded| ==>
      DownloadSettled(Enriched(selected[i], svc.summaries), downloaded[i], layout, svc, fs.files, fs.dirs)
    ensures out == Crashed <==>
      exists i :: 0 <= i < |downloaded| && downloaded[i] && !Renders(fs.files, layout, svc, selected[i].id)
    ensures out == Crashed ==>
      fs.files == AssetFiles(old(fs.files), fs.dirs, layout, svc, EnrichedAll(selected, svc.summaries)[..|downloaded|]) &&
      SameEntry(old(fs.files), fs.files, layout.dataFile)
    ensures out.Reported? ==>
      |out.papers| == |selected| == |downloaded| &&
      (forall i :: 0 <= i < |selected| ==>
        FinalPaper(selected[i], out.papers[i], downloaded[i], layout, svc, token) &&
        AssetsPresent(Enriched(selected[i], svc.summaries), out.papers[i], downloaded[i], layout, fs.files, fs.dirs)) &&
      fs.files == AssetFiles(old(fs.files), fs.dirs, layout, svc, EnrichedAll(selected, svc.summaries))[layout.dataFile := PapersJson(out.papers)]
    ensures old(fs.files).Keys <= fs.files.Keys && fs.dirs == old(fs.dirs)
  {
    var a := new Paper[|selected|](i requires 0 <= i < |selected| => selected[i]);
    EnrichWithSummaries(a, svc.summaries);
    ghost var enriched := a[..];
    assert enriched == EnrichedAll(selected, svc.summaries);
    var crashed;
    downloaded, crashed := AttachAssets(fs, a, layout, svc);
    ghost var withAssets := a[..];
    forall i | 0 <= i < |downloaded|
      ensures DownloadSettled(enriched[i], downloaded[i], layout, svc, fs.files, fs.dirs)
      ensures enriched[i].id == selected[i].id
    {
      assert AssetsRecorded(enriched[i], withAssets[i], downloaded[i], layout, svc);
    }
    if crashed {
      out := Crashed;
      return;
    }
    assert enriched[..|downloaded|] == enriched;
    forall i | 0 <= i < |selected|
      ensures enriched[i] == Enriched(selected[i], svc.summaries)
      ensures PreviewRecorded(enriched[i], withAssets[i], downloaded[i], layout)
      ensures downloaded[i] ==> Renders(fs.files, layout, svc, enriched[i].id)
    {
    }
    var papers := ReportSelected(fs, a, layout, svc, token, selected, enriched, downloaded);
    out := Reported(papers);
  }

  /** The papers of a run without a crash, from the discussion step to the
      cache write: each is a final paper whose asset files are still there,
      and the cache file holds exactly the list. */
  method ReportSelected(fs: FileStore, a: array<Paper>, layout: Layout, svc: Services, token: Option<string>,
                        ghost selected: seq<Paper>, ghost enriched: seq<Paper>, ghost downloaded: seq<bool>)
    returns (papers: seq<Paper>)
    requires layout.dataFile == Slash(layout.assetsDir, CacheName)
    requires a.Length == |selected| == |enriched| == |downloaded|
    requires forall i :: 0 <= i < a.Length ==>
      enriched[i] == Enriched(selected[i], svc.summaries) &&
      AssetsRecorded(enriched[i], a[i], downloaded[i], layout, svc) &&
      PreviewRecorded(enriched[i], a[i], downloaded[i], layout) &&
      AssetsPresent(enriched[i], a[i], downloaded[i], layout, fs.files, fs.dirs) &&
      (downloaded[i] ==> Renders(fs.files, layout, svc, enriched[i].id))
    modifies fs, a
    ensures |papers| == |selected|
    ensures forall i :: 0 <= i < |selected| ==>
      FinalPaper(selected[i], papers[i], downloaded[i], layout, svc, token) &&
      AssetsPresent(enriched[i], papers[i], downloaded[i], layout, fs.files, fs.dirs) &&
      (downloaded[i] ==> Renders(fs.files, layout, svc, enriched[i].id))
    ensures fs.files == old(fs.files)[layout.dataFile := PapersJson(papers)] && fs.dirs == old(fs.dirs)
  {
    ghost var withAssets := a[..];
    papers := DiscussAndCache(fs, a, layout, svc, token);
    forall i | 0 <= i < |selected|
      ensures FinalPaper(selected[i], papers[i], downloaded[i], layout, svc, token)
      ensures AssetsPresent(enriched[i], papers[i], downloaded[i], layout, fs.files, fs.dirs)
      ensures downloaded[i] ==> Renders(fs.files, layout, svc, enriched[i].id)
    {
      ReportedPaper(selected[i], enriched[i], withAssets[i], papers[i], downloaded[i], layout, svc, token);
      CacheWriteKeepsAssets(enriched[i], withAssets[i], papers[i], downloaded[i], layout, svc,
                            old(fs.files), fs.dirs, PapersJson(papers));
    }
  }

  /** A paper that went through the asset step without a crash and then
      through the discussion step is a final paper. */
  lemma ReportedPaper(s: Paper, e: Paper, w: Paper, q: Paper, d: bool, layout: Layout, svc: Services,
                      token: Option<string>)
    requires e == Enriched(s, svc.summaries)
    requires AssetsRecorded(e, w, d, layout, svc) && PreviewRecorded(e, w, d, layout)
    requires q == if NoToken(token) then w else w.(tweets := Some(TweetsFrom(svc.search(Query(w.title)))))
    ensures FinalPaper(s, q, d, layout, svc, token)
  {
  }

  /** The cache write keeps a paper's asset files and its rendering PDF. */
  lemma CacheWriteKeepsAssets(e: Paper, w: Paper, q: Paper, d: bool, layout: Layout, svc: Services,
                              files: map<string, Content>, dirs: set<string>, c: Content)
    requires layout.dataFile == Slash(layout.assetsDir, CacheName)
    requires AssetsPresent(e, w, d, layout, files, dirs) && q.pdfPreview == w.pdfPreview
    ensures AssetsPresent(e, q, d, layout, files[layout.dataFile := c], dirs)
    ensures Renders(files, layout, svc, e.id) ==> Renders(files[layout.dataFile := c], layout, svc, e.id)
  {
    AssetNamesDistinct(layout, e.id, e.id);
  }

  /** The end of the cache-miss pipeline: the discussion step when a bearer
      token is set, then the cache write of the papers. */
  method DiscussAndCache(fs: FileStore, a: array<Paper>, layout: Layout, svc: Services, token: Option<string>)
    returns (papers: seq<Paper>)
    modifies fs, a
    ensures |papers| == a.Length
    ensures forall i :: 0 <= i < a.Length ==>
      papers[i] == if NoToken(token) then old(a[i]) else old(a[i]).(tweets := Some(TweetsFrom(svc.search(Query(old(a[i]).title)))))
    ensures fs.files == old(fs.files)[layout.dataFile := PapersJson(papers)] && fs.dirs == old(fs.dirs)
  {
    if !NoToken(token) {
      AttachTweets(a, token, svc.search);
    }
    papers := a[..];
    fs.Write(layout.dataFile, PapersJson(papers));
  }

  /** Every reported paper was in the arXiv listing and, with the
      pre-filter on, has a project link. */
  lemma SelectedFromListing(cfg: Config, svc: Services)
    ensures forall p :: p in Selected(cfg, svc) ==> p in svc.arxiv
    ensures cfg.requireProjectLink ==>
      forall p :: p in Selected(cfg, svc) ==> HasProjectLink(FilterPattern, p)
  {
    var pre := Prefiltered(cfg, svc.arxiv);
    FilterPapersIsSubsequence(pre, cfg.interests, svc.selection, cfg.maxSelected);
    SubseqMembers(Selected(cfg, svc), pre);
  }

  /** With the pre-filter on, every reported paper carries the project
      link that let it through; the pipeline never changes a paper's id,
      title or links to arXiv. */
  lemma FinalPaperKeepsPaper(cfg: Config, svc: Services, s: Paper, q: Paper, downloaded: bool)
    requires s in Selected(cfg, svc)
    requires FinalPaper(s, q, downloaded, LayoutOf(cfg), svc, cfg.xBearer)
    ensures q.id == s.id && q.title == s.title && q.url == s.url && q.pdfUrl == s.pdfUrl
    ensures q.projectUrl == Some(ProjectUrlFor(FilterPattern, s))
    ensures cfg.requireProjectLink ==> q.projectUrl.value.Some?
  {
    SelectedFromListing(cfg, svc);
    EnrichedLinkMatchesPrefilter(s, svc.summaries);
    HasProjectLinkMatchesProjectUrl(FilterPattern, s);
  }

  /** The names the asset step writes into the assets directory never
      collide with one another or with the cache. */
  lemma AssetNamesDistinct(layout: Layout, id1: string, id2: string)
    ensures Slash(layout.assetsDir, PdfName(id1)) != Slash(layout.assetsDir, CacheName)
    ensures Slash(layout.assetsDir, PreviewName(id1)) != Slash(layout.assetsDir, CacheName)
    ensures PdfName(id1) != PreviewName(id2)
    ensures Slash(layout.assetsDir, PdfName(id1)) != Slash(layout.assetsDir, PreviewName(id2))
    ensures PdfName(id1) == PdfName(id2) ==> id1 == id2
    ensures PreviewName(id1) == PreviewName(id2) ==> id1 == id2
  {
    var pdf1, preview1 := Slash(layout.assetsDir, PdfName(id1)), Slash(layout.assetsDir, PreviewName(id1));
    var preview2 := Slash(layout.assetsDir, PreviewName(id2));
    assert pdf1[|pdf1| - 1] == 'f' && preview1[|preview1| - 1] == 'g' && CacheName[|CacheName| - 1] == 'n';
    assert preview2[|preview2| - 1] == 'g';
    assert PdfName(id1)[|PdfName(id1)| - 1] == 'f' && PreviewName(id2)[|PreviewName(id2)| - 1] == 'g';
    if PdfName(id1) == PdfName(id2) {
      assert id1 == PdfName(id1)[..|id1|] && id2 == PdfName(id2)[..|id2|];
    }
    if PreviewName(id1) == PreviewName(id2) {
      assert id1 == PreviewName(id1)[..|id1|] && id2 == PreviewName(id2)[..|id2|];
    }
  }
}
