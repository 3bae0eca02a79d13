/** The asset stage of `assets.py`: the figure acceptance loop of
    `extract_figures`, the download of a paper's PDF and its first-page
    preview. Reading and rendering PDFs and images is abstracted: an image
    is the record of what the loop looks at. */
module Assets {
  import opened Common
  import opened Files

  // ---------------------------------------------------------------------
  // Images and the acceptance filters
  // ---------------------------------------------------------------------

  /** A decoded image: its pixel size and colour mode. */
  datatype Picture = Picture(width: int, height: int, mode: string)

  /** One entry of a page's image list, as the loop processes it. */
  datatype PdfImage =
    | Unextractable                    // `extract_image` raises or has no "image"
    | Extracted(byteCount: nat,        // `len(image_bytes)`
                decoded: Option<Picture>,  // None: `Image.open` raises
                savable: bool)         // false: the conversion or `save` raises

  /** A document: its pages, each with its image list. */
  type Document = seq<seq<PdfImage>>

  const MinBytes := 15000
  const MinSide := 200
  const PagesExamined := 5
  const DefaultMaxFigures := 3

  /** What the loop body does with one image. */
  datatype Verdict = Raised | TooFewBytes | TooSmall | TooSkinny | Saved(picture: Picture)

  /** The body of the inner loop: the filters in their order, the aspect
      ratio compared by cross-multiplication (the height is at least 200). */
  function Judge(img: PdfImage): Verdict
  {
    match img
    case Unextractable => Raised
    case Extracted(n, decoded, savable) =>
      if n < MinBytes then TooFewBytes
      else
        match decoded
        case None => Raised
        case Some(pic) =>
          if pic.width < MinSide || pic.height < MinSide then TooSmall
          else if pic.width > 5 * pic.height || 5 * pic.width < pic.height then TooSkinny
          else if !savable then Raised
          else Saved(pic)
  }

  /** The bounds an accepted image meets, stated on their own: at least
      15000 bytes, at least 200 pixels each way, and a width-to-height ratio
      between 0.2 and 5, both ends included. */
  predicate MeetsBounds(img: PdfImage)
  {
    img.Extracted? && img.byteCount >= 15000 && img.decoded.Some? &&
    var pic := img.decoded.value;
    pic.width >= 200 && pic.height >= 200 &&
    5 * pic.height >= pic.width && 5 * pic.width >= pic.height
  }

  /** An image is saved exactly when it meets every bound and saving it
      does not raise; what is saved is the decoded picture. */
  lemma JudgeAcceptsExactly(img: PdfImage)
    ensures Judge(img).Saved? <==> MeetsBounds(img) && img.savable
    ensures Judge(img).Saved? ==> Judge(img).picture == img.decoded.value
  {
  }

  /** The mode the picture is saved in: CMYK becomes RGB. */
  function SavedMode(mode: string): (r: string)
    ensures r != "CMYK"
    ensures mode == "CMYK" ==> r == "RGB"
    ensures mode != "CMYK" ==> r == mode
  {
    if mode == "CMYK" then "RGB" else mode
  }

  // ---------------------------------------------------------------------
  // Which images become figures
  // ---------------------------------------------------------------------

  /** An accepted image: its page, its position in the page's list and
      its picture. */
  datatype Spot = Spot(page: nat, index: nat, picture: Picture)

  /** The accepted images among the first `n` of one page's list. */
  function PageSpots(page: nat, imgs: seq<PdfImage>, n: nat): seq<Spot>
    requires n <= |imgs|
  {
    if n == 0 then []
    else
      PageSpots(page, imgs, n - 1) + SpotIf(page, n - 1, imgs[n - 1])
  }

  /** The image at `index` of `page` as a figure, if it is accepted. */
  function SpotIf(page: nat, index: nat, img: PdfImage): seq<Spot>
  {
    match Judge(img)
    case Saved(pic) => [Spot(page, index, pic)]
    case _ => []
  }

  /** The accepted images of the first `n` pages, page by page. */
  function Candidates(doc: Document, n: nat): seq<Spot>
    requires n <= |doc|
  {
    if n == 0 then [] else Candidates(doc, n - 1) + PageSpots(n - 1, doc[n - 1], |doc[n - 1]|)
  }

  /** The number of pages the loop looks at. */
  function Examined(doc: Document): nat
  {
    Min(PagesExamined, |doc|)
  }

  /** The first `m` elements of `s`, none when `m` is not positive. */
  function Cap<T>(s: seq<T>, m: int): (r: seq<T>)
    ensures |r| == Max(0, Min(m, |s|)) && r == s[..|r|]
  {
    if m <= 0 then [] else if m >= |s| then s else s[..m]
  }

  /** The figures `extract_figures` keeps: the first `maxFigures` accepted
      images of the examined pages. */
  function Figures(doc: Document, maxFigures: int): seq<Spot>
  {
    Cap(Candidates(doc, Examined(doc)), maxFigures)
  }

  // ---------------------------------------------------------------------
  // Names and files
  // ---------------------------------------------------------------------

  function FigureName(paperId: string, s: Spot): string
  {
    paperId + "_p" + NatToString(s.page) + "_fig" + NatToString(s.index) + ".png"
  }

  function FiguresDir(outputDir: string): string
  {
    Slash(outputDir, "figures")
  }

  /** The path `extract_figures` returns for a figure, relative to the
      output directory. */
  function FigurePath(paperId: string, s: Spot): string
  {
    "./figures/" + FigureName(paperId, s)
  }

  /** `FigurePath` for one paper, as a function of the figure. */
  function PathOf(paperId: string): Spot -> string
  {
    s => FigurePath(paperId, s)
  }

  /** Where a figure of the paper is saved, as a function of the figure. */
  function FileOf(dir: string, paperId: string): Spot -> string
  {
    s => Slash(dir, FigureName(paperId, s))
  }

  /** `f` applied to every element, in order. */
  function Mapped<T, U>(s: seq<T>, f: T -> U): (r: seq<U>)
    ensures |r| == |s|
  {
    if s == [] then [] else Mapped(s[..|s| - 1], f) + [f(s[|s| - 1])]
  }

  /** Element `i` of `Mapped(s, f)` is `f(s[i])`. */
  lemma {:induction false} MappedElements<T, U>(s: seq<T>, f: T -> U)
    ensures forall i :: 0 <= i < |s| ==> Mapped(s, f)[i] == f(s[i])
  {
    if s != [] {
      MappedElements(s[..|s| - 1], f);
    }
  }

  /** The saved image of a figure. */
  function FigureContent(s: Spot): Content
  {
    FigureImage(s.picture.width, s.picture.height, SavedMode(s.picture.mode))
  }

  /** The files `files` become when the figures are saved in order. */
  function SaveAll(files: map<string, Content>, spots: seq<Spot>, file: Spot -> string): map<string, Content>
  {
    if spots == [] then files
    else
      var last := spots[|spots| - 1];
      SaveAll(files, spots[..|spots| - 1], file)[file(last) := FigureContent(last)]
  }

  // ---------------------------------------------------------------------
  // extract_figures
  // ---------------------------------------------------------------------

  /** `extract_figures(pdf_path, paper_id, output_dir, max_figures)` on the
      opened document: creates the figures directory, walks the first five
      pages and their images until `maxFigures` are saved, and returns the
      saved figures' relative paths. */
  method ExtractFigures(fs: FileStore, doc: Document, paperId: string, outputDir: string, maxFigures: int)
    returns (savedPaths: seq<string>)
    modifies fs
    ensures savedPaths == Mapped(Figures(doc, maxFigures), PathOf(paperId))
    ensures fs.files == SaveAll(old(fs.files), Figures(doc, maxFigures), FileOf(FiguresDir(outputDir), paperId))
    ensures fs.dirs == old(fs.dirs) + {FiguresDir(outputDir)}
  {
    var dir := FiguresDir(outputDir);
    fs.MakeDirs(dir);
    savedPaths := SaveFigures(fs, doc, maxFigures, PathOf(paperId), FileOf(dir, paperId));
  }

  /** The page loop of `extract_figures`, with the path recorded and the
      file written for a figure given as functions of its spot. */
  method SaveFigures(fs: FileStore, doc: Document, maxFigures: int, path: Spot -> string, file: Spot -> string)
    returns (savedPaths: seq<string>)
    modifies fs
    ensures savedPaths == Mapped(Figures(doc, maxFigures), path)
    ensures fs.files == SaveAll(old(fs.files), Figures(doc, maxFigures), file)
    ensures fs.dirs == old(fs.dirs)
  {
    ghost var base := fs.files;
    savedPaths := [];
    ghost var taken: seq<Spot> := [];
    var n := Min(PagesExamined, |doc|);
    var page := 0;
    // the guard's second half is the `break` at the top of the body
    while page < n && |savedPaths| < maxFigures
      invariant 0 <= page <= n
      invariant taken == Cap(Candidates(doc, page), maxFigures)
      invariant savedPaths == Mapped(taken, path)
      invariant fs.files == SaveAll(base, taken, file)
      invariant fs.dirs == old(fs.dirs)
    {
      ghost var before := taken;
      savedPaths, taken := SavePageFigures(fs, page, doc[page], maxFigures, savedPaths, taken, base, path, file);
      NextPage(doc, page, maxFigures, before);
      page := page + 1;
    }
    PagesDone(doc, page, maxFigures, taken);
  }

  /** One more page examined below the cap. */
  lemma NextPage(doc: Document, page: nat, maxFigures: int, taken: seq<Spot>)
    requires page < |doc| && taken == Cap(Candidates(doc, page), maxFigures) && |taken| < maxFigures
    ensures Cap(taken + PageSpots(page, doc[page], |doc[page]|), maxFigures) == Cap(Candidates(doc, page + 1), maxFigures)
  {
    assert taken == Candidates(doc, page);
  }

  /** Leaving the page loop, at the last examined page or with the cap
      reached, leaves the figures. */
  lemma PagesDone(doc: Document, page: nat, maxFigures: int, taken: seq<Spot>)
    requires page <= Examined(doc) && taken == Cap(Candidates(doc, page), maxFigures)
    requires page == Examined(doc) || |taken| >= maxFigures
    ensures taken == Figures(doc, maxFigures)
  {
    if page < Examined(doc) {
      CandidatesPrefix(doc, page, Examined(doc));
      CapOfPrefix(Candidates(doc, page), Candidates(doc, Examined(doc)), maxFigures);
    }
  }

  /** The inner loop of `extract_figures` over one page's images, entered
      with fewer than `maxFigures` figures saved. */
  method SavePageFigures(fs: FileStore, page: nat, imgs: seq<PdfImage>, maxFigures: int,
                         saved: seq<string>, ghost taken: seq<Spot>, ghost base: map<string, Content>,
                         path: Spot -> string, file: Spot -> string)
    returns (saved': seq<string>, ghost taken': seq<Spot>)
    modifies fs
    requires saved == Mapped(taken, path) && |taken| < maxFigures
    requires fs.files == SaveAll(base, taken, file)
    ensures taken' == Cap(taken + PageSpots(page, imgs, |imgs|), maxFigures)
    ensures saved' == Mapped(taken', path)
    ensures fs.files == SaveAll(base, taken', file)
    ensures fs.dirs == old(fs.dirs)
  {
    saved' := saved;
    taken' := taken;
    var i := 0;
    // the guard's second half is the `break` at the top of the body
    while i < |imgs| && |saved'| < maxFigures
      invariant 0 <= i <= |imgs|
      invariant taken' == taken + PageSpots(page, imgs, i) && |taken'| <= maxFigures
      invariant saved' == Mapped(taken', path)
      invariant fs.files == SaveAll(base, taken', file)
      invariant fs.dirs == old(fs.dirs)
    {
      saved', taken' := ConsiderImage(fs, page, imgs, i, saved', taken', taken, base, path, file);
      i := i + 1;
    }
    PageDone(taken, taken', page, imgs, i, maxFigures);
  }

  /** One pass of the inner loop's body: the image at `i` is saved when
      it is accepted. */
  method ConsiderImage(fs: FileStore, page: nat, imgs: seq<PdfImage>, i: nat,
                       saved: seq<string>, ghost taken: seq<Spot>, ghost before: seq<Spot>,
                       ghost base: map<string, Content>, path: Spot -> string, file: Spot -> string)
    returns (saved': seq<string>, ghost taken': seq<Spot>)
    modifies fs
    requires i < |imgs| && taken == before + PageSpots(page, imgs, i)
    requires saved == Mapped(taken, path) && fs.files == SaveAll(base, taken, file)
    ensures taken' == before + PageSpots(page, imgs, i + 1) && |taken'| <= |taken| + 1
    ensures |saved'| == |taken'|
    ensures saved' == Mapped(taken', path) && fs.files == SaveAll(base, taken', file)
    ensures fs.dirs == old(fs.dirs)
  {
    var verdict := Judge(imgs[i]);
    assert PageSpots(page, imgs, i + 1) == PageSpots(page, imgs, i) + SpotIf(page, i, imgs[i]);
    if verdict.Saved? {
      var s := Spot(page, i, verdict.picture);
      assert before + PageSpots(page, imgs, i + 1) == taken + [s];
      saved', taken' := SaveFigure(fs, s, saved, taken, base, path, file);
    } else {
      assert before + PageSpots(page, imgs, i + 1) == taken;
      saved', taken' := saved, taken;
    }
  }

  /** Saving one accepted image and appending its path. */
  method SaveFigure(fs: FileStore, s: Spot, saved: seq<string>, ghost taken: seq<Spot>,
                    ghost base: map<string, Content>, path: Spot -> string, file: Spot -> string)
    returns (saved': seq<string>, ghost taken': seq<Spot>)
    modifies fs
    requires saved == Mapped(taken, path)
    requires fs.files == SaveAll(base, taken, file)
    ensures taken' == taken + [s]
    ensures saved' == Mapped(taken', path)
    ensures fs.files == SaveAll(base, taken', file)
    ensures fs.dirs == old(fs.dirs)
  {
    taken' := taken + [s];
    assert taken'[..|taken|] == taken;
    fs.Write(file(s), FigureContent(s));
    saved' := saved + [path(s)];
  }

  /** Leaving the inner loop, at the end of the list or with the cap
      reached, leaves the capped accepted images of the page. */
  lemma PageDone(taken: seq<Spot>, taken': seq<Spot>, page: nat, imgs: seq<PdfImage>, i: nat, maxFigures: int)
    requires i <= |imgs| && taken' == taken + PageSpots(page, imgs, i) && |taken'| <= maxFigures
    requires i == |imgs| || |taken'| >= maxFigures
    ensures taken' == Cap(taken + PageSpots(page, imgs, |imgs|), maxFigures)
  {
    if i < |imgs| {
      PageSpotsPrefix(page, imgs, i, |imgs|);
      CapOfAppendPrefix(taken, PageSpots(page, imgs, i), PageSpots(page, imgs, |imgs|), maxFigures);
    }
  }

  lemma CapOfAppendPrefix<T>(t: seq<T>, a: seq<T>, b: seq<T>, m: int)
    requires |a| <= |b| && a == b[..|a|] && m <= |t| + |a|
    ensures Cap(t + b, m) == Cap(t + a, m)
  {
    assert t + a == (t + b)[..|t + a|];
  }

  lemma CapOfPrefix<T>(a: seq<T>, b: seq<T>, m: int)
    requires |a| <= |b| && a == b[..|a|] && m <= |a|
    ensures Cap(b, m) == Cap(a, m)
  {
  }

  lemma {:induction false} PageSpotsPrefix(page: nat, imgs: seq<PdfImage>, i: nat, j: nat)
    requires i <= j <= |imgs|
    ensures |PageSpots(page, imgs, i)| <= |PageSpots(page, imgs, j)|
    ensures PageSpots(page, imgs, i) == PageSpots(page, imgs, j)[..|PageSpots(page, imgs, i)|]
    decreases j
  {
    if i < j {
      PageSpotsPrefix(page, imgs, i, j - 1);
    }
  }

  lemma {:induction false} CandidatesPrefix(doc: Document, i: nat, j: nat)
    requires i <= j <= |doc|
    ensures |Candidates(doc, i)| <= |Candidates(doc, j)|
    ensures Candidates(doc, i) == Candidates(doc, j)[..|Candidates(doc, i)|]
    decreases j
  {
    if i < j {
      CandidatesPrefix(doc, i, j - 1);
    }
  }

  // ---------------------------------------------------------------------
  // download_pdf and generate_pdf_preview
  // ---------------------------------------------------------------------

  /** `download_pdf(pdf_url, output_path)`. `fetch` is the HTTP GET: the
      response body, or None when the request raises; the status code is not
      looked at. `fetched` tells whether a request was made. */
  method DownloadPdf(fs: FileStore, pdfUrl: string, outputPath: string, fetch: string -> Option<seq<bv8>>)
    returns (ok: bool, ghost fetched: bool)
    modifies fs
    ensures fetched <==> !old(fs.Exists(outputPath))
    ensures !fetched ==> ok && fs.files == old(fs.files)
    ensures fetched ==> ok == fetch(pdfUrl).Some?
    ensures fetched && ok ==> fs.files == old(fs.files)[outputPath := Download(fetch(pdfUrl).value)]
    ensures fetched && !ok ==> fs.files == old(fs.files)
    ensures fs.dirs == old(fs.dirs)
    ensures ok ==> fs.Exists(outputPath)
  {
    if fs.Exists(outputPath) {
      return true, false;
    }
    fetched := true;
    match fetch(pdfUrl)
    case None =>
      ok := false;
    case Some(body) =>
      fs.Write(outputPath, Download(body));
      ok := true;
  }

  /** The file name of a paper's first-page preview. */
  function PreviewName(paperId: string): string
  {
    paperId + "_preview.png"
  }

  /** `generate_pdf_preview(pdf_path, paper_id, output_dir)`. `renders`
      says whether PyMuPDF opens the stored file and rasterises its first
      page without raising. */
  method GeneratePdfPreview(fs: FileStore, pdfPath: string, paperId: string, outputDir: string,
                            renders: Content -> bool)
    returns (r: Option<string>)
    modifies fs
    ensures pdfPath in old(fs.files) && renders(old(fs.files[pdfPath])) ==>
      r == Some(PreviewName(paperId)) &&
      fs.files == old(fs.files)[Slash(outputDir, PreviewName(paperId)) := PagePreview(old(fs.files[pdfPath]))]
    ensures !(pdfPath in old(fs.files) && renders(old(fs.files[pdfPath]))) ==>
      r == None && fs.files == old(fs.files)
    ensures fs.dirs == old(fs.dirs)
  {
    if pdfPath in fs.files && renders(fs.files[pdfPath]) {
      var name := PreviewName(paperId);
      fs.Write(Slash(outputDir, name), PagePreview(fs.files[pdfPath]));
      r := Some(name);
    } else {
      r := None;
    }
  }

  // ---------------------------------------------------------------------
  // What the figures are
  // ---------------------------------------------------------------------

  lemma {:induction false} PageSpotsMeaning(page: nat, imgs: seq<PdfImage>, n: nat, s: Spot)
    requires n <= |imgs|
    ensures s in PageSpots(page, imgs, n) <==>
      s.page == page && s.index < n && Judge(imgs[s.index]) == Saved(s.picture)
  {
    if n > 0 {
      PageSpotsMeaning(page, imgs, n - 1, s);
    }
  }

  lemma {:induction false} CandidatesMeaning(doc: Document, n: nat, s: Spot)
    requires n <= |doc|
    ensures s in Candidates(doc, n) <==>
      s.page < n && s.index < |doc[s.page]| && Judge(doc[s.page][s.index]) == Saved(s.picture)
  {
    if s in Candidates(doc, n) {
      CandidatesSound(doc, n, s);
    }
    if s.page < n && s.index < |doc[s.page]| && Judge(doc[s.page][s.index]) == Saved(s.picture) {
      CandidatesComplete(doc, n, s);
    }
  }

  lemma {:induction false} CandidatesSound(doc: Document, n: nat, s: Spot)
    requires n <= |doc| && s in Candidates(doc, n)
    ensures s.page < n && s.index < |doc[s.page]| && Judge(doc[s.page][s.index]) == Saved(s.picture)
  {
    var prev, here := Candidates(doc, n - 1), PageSpots(n - 1, doc[n - 1], |doc[n - 1]|);
    assert s in prev + here;
    if s in prev {
      CandidatesSound(doc, n - 1, s);
    } else {
      PageSpotsMeaning(n - 1, doc[n - 1], |doc[n - 1]|, s);
    }
  }

  lemma {:induction false} CandidatesComplete(doc: Document, n: nat, s: Spot)
    requires n <= |doc| && s.page < n && s.index < |doc[s.page]|
    requires Judge(doc[s.page][s.index]) == Saved(s.picture)
    ensures s in Candidates(doc, n)
  {
    var prev, here := Candidates(doc, n - 1), PageSpots(n - 1, doc[n - 1], |doc[n - 1]|);
    if s.page < n - 1 {
      CandidatesComplete(doc, n - 1, s);
      assert s in prev;
    } else {
      PageSpotsMeaning(n - 1, doc[n - 1], |doc[n - 1]|, s);
      assert s in here;
    }
    assert Candidates(doc, n) == prev + here;
  }

  /** Every figure is an accepted image of one of the first five pages, and
      it meets every bound. */
  lemma FiguresAreAcceptedImages(doc: Document, maxFigures: int, s: Spot)
    requires s in Figures(doc, maxFigures)
    ensures s.page < PagesExamined && s.page < |doc| && s.index < |doc[s.page]|
    ensures Judge(doc[s.page][s.index]) == Saved(s.picture)
    ensures MeetsBounds(doc[s.page][s.index])
  {
    var all := Candidates(doc, Examined(doc));
    assert s in all;
    CandidatesMeaning(doc, Examined(doc), s);
    JudgeAcceptsExactly(doc[s.page][s.index]);
  }

  /** When the cap is not reached, every accepted image of the first five
      pages is a figure. */
  lemma FiguresCompleteBelowCap(doc: Document, maxFigures: int, page: nat, index: nat)
    requires page < Examined(doc) && index < |doc[page]| && Judge(doc[page][index]).Saved?
    requires |Candidates(doc, Examined(doc))| <= maxFigures
    ensures Spot(page, index, Judge(doc[page][index]).picture) in Figures(doc, maxFigures)
  {
    CandidatesMeaning(doc, Examined(doc), Spot(page, index, Judge(doc[page][index]).picture));
  }

  /** Never more figures than `maxFigures`, three by default. */
  lemma FiguresCapped(doc: Document, maxFigures: int)
    ensures |Figures(doc, maxFigures)| <= Max(0, maxFigures)
    ensures |Figures(doc, DefaultMaxFigures)| <= 3
  {
  }

  /** `a` comes before `b` in page-then-image order. */
  predicate Before(a: Spot, b: Spot)
  {
    a.page < b.page || (a.page == b.page && a.index < b.index)
  }

  lemma {:induction false} PageSpotsOrdered(page: nat, imgs: seq<PdfImage>, n: nat)
    requires n <= |imgs|
    ensures forall k :: 0 <= k < |PageSpots(page, imgs, n)| ==>
      PageSpots(page, imgs, n)[k].page == page && PageSpots(page, imgs, n)[k].index < n
    ensures forall i, j :: 0 <= i < j < |PageSpots(page, imgs, n)| ==>
      PageSpots(page, imgs, n)[i].index < PageSpots(page, imgs, n)[j].index
  {
    if n > 0 {
      PageSpotsOrdered(page, imgs, n - 1);
    }
  }

  lemma {:induction false} CandidatesOrdered(doc: Document, n: nat)
    requires n <= |doc|
    ensures forall k :: 0 <= k < |Candidates(doc, n)| ==> Candidates(doc, n)[k].page < n
    ensures forall i, j :: 0 <= i < j < |Candidates(doc, n)| ==> Before(Candidates(doc, n)[i], Candidates(doc, n)[j])
  {
    if n > 0 {
      var c, ps := Candidates(doc, n - 1), PageSpots(n - 1, doc[n - 1], |doc[n - 1]|);
      var all := Candidates(doc, n);
      assert all == c + ps;
      CandidatesOrdered(doc, n - 1);
      PageSpotsOrdered(n - 1, doc[n - 1], |doc[n - 1]|);
      forall k | 0 <= k < |all| ensures all[k].page < n {
        if k >= |c| {
          assert all[k] == ps[k - |c|];
        }
      }
      forall i, j | 0 <= i < j < |all| ensures Before(all[i], all[j]) {
        if j < |c| {
          assert all[i] == c[i] && all[j] == c[j];
        } else if i < |c| {
          assert all[i] == c[i] && all[j] == ps[j - |c|];
        } else {
          assert all[i] == ps[i - |c|] && all[j] == ps[j - |c|];
        }
      }
    }
  }

  /** The figures come in page-then-image order. */
  lemma FiguresInOrder(doc: Document, maxFigures: int)
    ensures forall i, j :: 0 <= i < j < |Figures(doc, maxFigures)| ==>
      Before(Figures(doc, maxFigures)[i], Figures(doc, maxFigures)[j])
  {
    CandidatesOrdered(doc, Examined(doc));
  }

  /** A run of digits followed by a non-digit is determined by the text. */
  lemma DigitsThenSeparator(a: string, x: string, b: string, y: string)
    requires AllDigits(a) && AllDigits(b) && x != [] && y != [] && !IsDigit(x[0]) && !IsDigit(y[0])
    requires a + x == b + y
    ensures a == b && x == y
  {
    assert a == (a + x)[..|a|] && b == (b + y)[..|b|];
    assert x == (a + x)[|a|..] && y == (b + y)[|b|..];
  }

  /** Two figures of a paper share a name only if they share page and
      image index. */
  lemma FigureNameInjective(paperId: string, s: Spot, t: Spot)
    requires FigureName(paperId, s) == FigureName(paperId, t)
    ensures s.page == t.page && s.index == t.index
  {
    var head := paperId + "_p";
    var ps, pt := NatToString(s.page), NatToString(t.page);
    var ns, nt := NatToString(s.index), NatToString(t.index);
    assert FigureName(paperId, s) == head + (ps + ("_fig" + (ns + ".png")));
    assert FigureName(paperId, t) == head + (pt + ("_fig" + (nt + ".png")));
    assert ps + ("_fig" + (ns + ".png")) == pt + ("_fig" + (nt + ".png")) by {
      assert FigureName(paperId, s)[|head|..] == ps + ("_fig" + (ns + ".png"));
      assert FigureName(paperId, t)[|head|..] == pt + ("_fig" + (nt + ".png"));
    }
    DigitsThenSeparator(ps, "_fig" + (ns + ".png"), pt, "_fig" + (nt + ".png"));
    assert ns + ".png" == ("_fig" + (ns + ".png"))[4..];
    assert nt + ".png" == ("_fig" + (nt + ".png"))[4..];
    DigitsThenSeparator(ns, ".png", nt, ".png");
    NatToStringInjective(s.page, t.page);
    NatToStringInjective(s.index, t.index);
  }

  /** The returned paths are pairwise distinct, so no figure overwrites
      another. */
  lemma FigurePathsDistinct(doc: Document, paperId: string, maxFigures: int, i: nat, j: nat)
    requires i < j < |Figures(doc, maxFigures)|
    ensures FigurePath(paperId, Figures(doc, maxFigures)[i]) != FigurePath(paperId, Figures(doc, maxFigures)[j])
  {
    var f := Figures(doc, maxFigures);
    FiguresInOrder(doc, maxFigures);
    assert Before(f[i], f[j]);
    if FigurePath(paperId, f[i]) == FigurePath(paperId, f[j]) {
      assert FigureName(paperId, f[i]) == FigurePath(paperId, f[i])[10..];
      assert FigureName(paperId, f[j]) == FigurePath(paperId, f[j])[10..];
      FigureNameInjective(paperId, f[i], f[j]);
    }
  }
}
