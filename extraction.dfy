/**
 * The page-by-page image enumeration of the extractor: a pure specification of which
 * image references are saved, under which names and in which order, and an imperative
 * method that walks the pages with a per-page seen-set and an accumulating path list,
 * proved equal to that specification.
 */
module Extraction {
  import opened Wrappers
  import opened ImageNaming
  import opened Normalisation

  /** The cross-reference number of an image object in the PDF. */
  type Xref = int

  /** The xrefs of a page's image references, in the order the library lists them. */
  type Page = seq<Xref>

  /** An opened document: its pages in order. */
  type Document = seq<Page>

  /** An image reference the extractor saves: 0-based page number, 0-based position in
      the page's full image list, and the xref found there. */
  datatype Entry = Entry(page: nat, index: nat, xref: Xref)

  /** One saved image file: its name and the normalised pixmap written to it. */
  datatype Saved = Saved(name: Name, pix: Pixmap)

  /** Decoding the image object with this xref, met on this (0-based) page, failed. */
  datatype Error = DecodeError(pageNum: nat, xref: Xref)

  /** The state of a run: the files saved so far, and the error that stopped it, if any. */
  datatype Run = Run(saved: seq<Saved>, failure: Option<Error>)

  function NameOf(e: Entry): Name {
    Name(e.page + 1, e.index + 1)
  }

  /** The xrefs among the first k image references of a page: the seen-set after k steps. */
  function Seen(page: Page, k: nat): set<Xref>
    requires k <= |page|
  {
    set j | 0 <= j < k :: page[j]
  }

  /** The distinct xrefs a page lists. */
  function Xrefs(page: Page): set<Xref> {
    set x | x in page
  }

  /** The entries kept among the first k image references of page p: a reference whose
      xref is already in the page's seen-set is skipped. */
  function PageEntries(p: nat, page: Page, k: nat): seq<Entry>
    requires k <= |page|
    decreases k
  {
    if k == 0 then []
    else PageEntries(p, page, k - 1)
         + (if page[k - 1] in Seen(page, k - 1) then [] else [Entry(p, k - 1, page[k - 1])])
  }

  /** The entries kept on the first n pages, page after page. */
  function PagesEntries(doc: Document, n: nat): seq<Entry>
    requires n <= |doc|
    decreases n
  {
    if n == 0 then [] else PagesEntries(doc, n - 1) + PageEntries(n - 1, doc[n - 1], |doc[n - 1]|)
  }

  /** Every entry the extractor keeps, in the order it meets them. */
  function Entries(doc: Document): seq<Entry> {
    PagesEntries(doc, |doc|)
  }

  /** Processing one kept entry: decode its xref, normalise and save it; once a decode
      has failed nothing more happens. */
  function Step(r: Run, e: Entry, images: map<Xref, Pixmap>, convertToRgb: Pixmap -> Pixmap): Run {
    if r.failure.Some? then r
    else if e.xref !in images then Run(r.saved, Some(DecodeError(e.page, e.xref)))
    else Run(r.saved + [Saved(NameOf(e), Normalise(images[e.xref], convertToRgb))], None)
  }

  /** Processing a sequence of kept entries from an empty start. */
  function RunAll(es: seq<Entry>, images: map<Xref, Pixmap>, convertToRgb: Pixmap -> Pixmap): Run
    decreases |es|
  {
    if es == [] then Run([], None)
    else Step(RunAll(es[..|es| - 1], images, convertToRgb), es[|es| - 1], images, convertToRgb)
  }

  /** The whole extraction run over a document. */
  function Extract(doc: Document, images: map<Xref, Pixmap>, convertToRgb: Pixmap -> Pixmap): Run {
    RunAll(Entries(doc), images, convertToRgb)
  }

  /** The list of paths built from the saved files. */
  function Paths(dir: string, saved: seq<Saved>): (ps: seq<string>)
    ensures |ps| == |saved|
    ensures forall i :: 0 <= i < |saved| ==> ps[i] == FilePath(dir, saved[i].name)
  {
    seq(|saved|, i requires 0 <= i < |saved| => FilePath(dir, saved[i].name))
  }

  /** What the extractor hands back: every path on success, the error otherwise. */
  function Returned(dir: string, r: Run): (res: Result<seq<string>, Error>)
    ensures res.Success? <==> r.failure.None?
    ensures res.Failure? ==> res.error == r.failure.value
    ensures res.Success? ==> |res.value| == |r.saved|
    ensures res.Success? ==> forall i :: 0 <= i < |r.saved| ==> res.value[i] == FilePath(dir, r.saved[i].name)
  {
    match r.failure
    case None => Success(Paths(dir, r.saved))
    case Some(err) => Failure(err)
  }

  lemma SeenSnoc(page: Page, k: nat)
    requires k < |page|
    ensures Seen(page, k + 1) == Seen(page, k) + {page[k]}
  {
  }

  lemma SeenAll(page: Page)
    ensures Seen(page, |page|) == Xrefs(page)
  {
    forall x | x in page ensures x in Seen(page, |page|) {
      var j :| 0 <= j < |page| && page[j] == x;
    }
  }

  lemma PathsSnoc(dir: string, saved: seq<Saved>, s: Saved)
    ensures Paths(dir, saved + [s]) == Paths(dir, saved) + [FilePath(dir, s.name)]
  {
  }

  /** Meeting reference k of page p after the entries `before`: a skipped reference
      leaves the kept entries as they are, a new one appends its entry. */
  lemma PageEntriesStep(doc: Document, p: nat, k: nat)
    requires p < |doc| && k < |doc[p]|
    ensures doc[p][k] in Seen(doc[p], k) ==>
      PagesEntries(doc, p) + PageEntries(p, doc[p], k + 1) == PagesEntries(doc, p) + PageEntries(p, doc[p], k)
    ensures doc[p][k] !in Seen(doc[p], k) ==>
      PagesEntries(doc, p) + PageEntries(p, doc[p], k + 1)
      == (PagesEntries(doc, p) + PageEntries(p, doc[p], k)) + [Entry(p, k, doc[p][k])]
  {
  }

  lemma RunAllSnoc(es: seq<Entry>, e: Entry, images: map<Xref, Pixmap>, convertToRgb: Pixmap -> Pixmap)
    ensures RunAll(es + [e], images, convertToRgb) == Step(RunAll(es, images, convertToRgb), e, images, convertToRgb)
  {
    assert (es + [e])[..|es|] == es;
  }

  lemma {:induction false} PageEntriesPrefix(p: nat, page: Page, k: nat, m: nat)
    requires k <= m <= |page|
    ensures PageEntries(p, page, k) <= PageEntries(p, page, m)
    decreases m
  {
    if k < m {
      PageEntriesPrefix(p, page, k, m - 1);
    }
  }

  lemma {:induction false} PagesEntriesPrefix(doc: Document, n: nat, m: nat)
    requires n <= m <= |doc|
    ensures PagesEntries(doc, n) <= PagesEntries(doc, m)
    decreases m
  {
    if n < m {
      PagesEntriesPrefix(doc, n, m - 1);
    }
  }

  lemma PrefixAppend(a: seq<Entry>, b: seq<Entry>, c: seq<Entry>)
    requires b <= c
    ensures a + b <= a + c
  {
    assert (a + c)[..|a + b|] == a + c[..|b|];
  }

  lemma PrefixTransitive(a: seq<Entry>, b: seq<Entry>, c: seq<Entry>)
    requires a <= b && b <= c
    ensures a <= c
  {
    assert c[..|a|] == c[..|b|][..|a|];
  }

  /** What has been met after k references of page p is where the full run begins. */
  lemma PartialEntriesPrefix(doc: Document, p: nat, k: nat)
    requires p < |doc| && k <= |doc[p]|
    ensures PagesEntries(doc, p) + PageEntries(p, doc[p], k) <= Entries(doc)
  {
    PageEntriesPrefix(p, doc[p], k, |doc[p]|);
    PagesEntriesPrefix(doc, p + 1, |doc|);
    PrefixAppend(PagesEntries(doc, p), PageEntries(p, doc[p], k), PageEntries(p, doc[p], |doc[p]|));
    PrefixTransitive(PagesEntries(doc, p) + PageEntries(p, doc[p], k), PagesEntries(doc, p + 1), Entries(doc));
  }

  /** Runs only grow: a run over a prefix saved a prefix of what the longer run saves,
      and once it has failed, the longer run ends in that same state. */
  lemma {:induction false} RunAllPrefix(es: seq<Entry>, fs: seq<Entry>, images: map<Xref, Pixmap>, convertToRgb: Pixmap -> Pixmap)
    requires es <= fs
    ensures RunAll(es, images, convertToRgb).saved <= RunAll(fs, images, convertToRgb).saved
    ensures RunAll(es, images, convertToRgb).failure.Some? ==> RunAll(fs, images, convertToRgb) == RunAll(es, images, convertToRgb)
    decreases |fs|
  {
    if |es| < |fs| {
      assert es <= fs[..|fs| - 1];
      RunAllPrefix(es, fs[..|fs| - 1], images, convertToRgb);
    } else {
      assert es == fs;
    }
  }

  /** Meeting a reference whose xref is new on its page: the run either fails there for
      good, or saves the normalised image under the reference's name. */
  lemma NewReferenceStep(doc: Document, images: map<Xref, Pixmap>, convertToRgb: Pixmap -> Pixmap,
                         p: nat, k: nat, partial: seq<Entry>, written: seq<Saved>)
    requires p < |doc| && k < |doc[p]| && doc[p][k] !in Seen(doc[p], k)
    requires partial == PagesEntries(doc, p) + PageEntries(p, doc[p], k)
    requires RunAll(partial, images, convertToRgb) == Run(written, None)
    ensures partial + [Entry(p, k, doc[p][k])] == PagesEntries(doc, p) + PageEntries(p, doc[p], k + 1)
    ensures doc[p][k] !in images ==>
      Extract(doc, images, convertToRgb) == Run(written, Some(DecodeError(p, doc[p][k])))
    ensures doc[p][k] in images ==>
      var s := Saved(Name(p + 1, k + 1), Normalise(images[doc[p][k]], convertToRgb));
      && RunAll(partial + [Entry(p, k, doc[p][k])], images, convertToRgb) == Run(written + [s], None)
      && written + [s] <= Extract(doc, images, convertToRgb).saved
  {
    var entry := Entry(p, k, doc[p][k]);
    PageEntriesStep(doc, p, k);
    RunAllSnoc(partial, entry, images, convertToRgb);
    var r := RunAll(partial + [entry], images, convertToRgb);
    assert r == Step(Run(written, None), entry, images, convertToRgb);
    PartialEntriesPrefix(doc, p, k + 1);
    RunAllPrefix(partial + [entry], Entries(doc), images, convertToRgb);
    if doc[p][k] in images {
      assert NameOf(entry) == Name(p + 1, k + 1);
    }
  }

  /**
   * The extraction loop. `written` records every image file saved, in order (the files
   * stay on disk even when a later decode fails); `result` is the returned path list,
   * or the decode error that aborted the run.
   */
  method ExtractImagesFromPdf(doc: Document, images: map<Xref, Pixmap>, convertToRgb: Pixmap -> Pixmap, dir: string)
    returns (result: Result<seq<string>, Error>, written: seq<Saved>)
    ensures written == Extract(doc, images, convertToRgb).saved
    ensures result == Returned(dir, Extract(doc, images, convertToRgb))
  {
    var imagePaths: seq<string> := [];
    written := [];
    ghost var final := Extract(doc, images, convertToRgb).saved;
    ghost var partial: seq<Entry> := [];
    for pageNum := 0 to |doc|
      invariant partial == PagesEntries(doc, pageNum)
      invariant RunAll(partial, images, convertToRgb) == Run(written, None)
      invariant imagePaths == Paths(dir, written)
      invariant written <= final
    {
      var imageList := doc[pageNum];
      var xrefSeen: set<Xref> := {};
      assert partial + PageEntries(pageNum, imageList, 0) == partial;
      for imgIndex := 0 to |imageList|
        invariant xrefSeen == Seen(imageList, imgIndex)
        invariant partial == PagesEntries(doc, pageNum) + PageEntries(pageNum, imageList, imgIndex)
        invariant RunAll(partial, images, convertToRgb) == Run(written, None)
        invariant imagePaths == Paths(dir, written)
        invariant written <= final
      {
        PageEntriesStep(doc, pageNum, imgIndex);
        SeenSnoc(imageList, imgIndex);
        var xref := imageList[imgIndex];
        if xref in xrefSeen {
          // A duplicate on this page: skipped, and its position is not reused.
          assert xrefSeen + {xref} == xrefSeen;
          continue;
        }
        xrefSeen := xrefSeen + {xref};
        NewReferenceStep(doc, images, convertToRgb, pageNum, imgIndex, partial, written);
        if xref !in images {
          result := Failure(DecodeError(pageNum, xref));
          return;
        }
        var pix := NormalisePixmap(images[xref], convertToRgb);
        var name := Name(pageNum + 1, imgIndex + 1);
        PathsSnoc(dir, written, Saved(name, pix));
        written := written + [Saved(name, pix)];
        imagePaths := imagePaths + [FilePath(dir, name)];
        partial := partial + [Entry(pageNum, imgIndex, xref)];
      }
      SeenAll(imageList);
      // Once the page is done, the seen-set holds exactly the xrefs the page lists.
      assert xrefSeen == Xrefs(imageList);
    }
    assert Extract(doc, images, convertToRgb) == Run(written, None);
    result := Success(imagePaths);
  }
}
