/**
 * What the extraction run promises: which image references it saves (the first
 * occurrence of each xref on each page), under which names, in which order, how many,
 * with which pixels, and where it stops when an image cannot be decoded.
 */
module ExtractionProperties {
  import opened Wrappers
  import opened ImageNaming
  import opened Normalisation
  import opened Extraction

  /** Reference `e.index` of page `e.page` exists, holds `e.xref`, and is the first
      occurrence of that xref on its page. */
  ghost predicate Kept(doc: Document, e: Entry) {
    && e.page < |doc|
    && e.index < |doc[e.page]|
    && e.xref == doc[e.page][e.index]
    && doc[e.page][e.index] !in doc[e.page][..e.index]
  }

  /** Traversal order of references: by page, then by position on the page. */
  predicate Precedes(a: Entry, b: Entry) {
    a.page < b.page || (a.page == b.page && a.index < b.index)
  }

  /** Entries in strictly increasing traversal order. */
  ghost predicate InTraversalOrder(es: seq<Entry>) {
    forall i, j :: 0 <= i < j < |es| ==> Precedes(es[i], es[j])
  }

  /** Entries all on page p, with positions below k, strictly increasing. */
  ghost predicate OnPageInOrder(es: seq<Entry>, p: nat, k: nat) {
    && (forall i :: 0 <= i < |es| ==> es[i].page == p && es[i].index < k)
    && (forall i, j :: 0 <= i < j < |es| ==> es[i].index < es[j].index)
  }

  /** The shape of a run over entries es: it saved, in order, the normalised decoding of
      each entry up to the first undecodable one, where it stopped with that entry's error. */
  ghost predicate RunShape(es: seq<Entry>, images: map<Xref, Pixmap>, convertToRgb: Pixmap -> Pixmap, r: Run) {
    && |r.saved| <= |es|
    && (forall i :: 0 <= i < |r.saved| ==>
          es[i].xref in images && r.saved[i] == Saved(NameOf(es[i]), Normalise(images[es[i].xref], convertToRgb)))
    && (r.failure.None? ==> |r.saved| == |es|)
    && (r.failure.Some? ==>
          && |r.saved| < |es| && es[|r.saved|].xref !in images
          && r.failure.value == DecodeError(es[|r.saved|].page, es[|r.saved|].xref))
  }

  /** Saved image s is the one for xref x on (0-based) page p. */
  ghost predicate SavedFor(doc: Document, s: Saved, p: nat, x: Xref) {
    p < |doc| && s.name.page == p + 1 && 1 <= s.name.image <= |doc[p]| && doc[p][s.name.image - 1] == x
  }

  /** The number of distinct xrefs on each of the first n pages, added up. */
  function DistinctImageCount(doc: Document, n: nat): nat
    requires n <= |doc|
    decreases n
  {
    if n == 0 then 0 else DistinctImageCount(doc, n - 1) + |Xrefs(doc[n - 1])|
  }

  /** The position of the first occurrence of x in s. */
  function FirstIndexOf(s: seq<Xref>, x: Xref): (i: nat)
    requires x in s
    ensures i < |s| && s[i] == x
    ensures forall j :: 0 <= j < |s| && s[j] == x ==> i <= j
  {
    if s[0] == x then 0
    else
      var i := 1 + FirstIndexOf(s[1..], x);
      assert forall j :: 0 < j < |s| ==> s[j] == s[1..][j - 1];
      i
  }

  lemma NotInPrefixOfFirst(s: seq<Xref>, x: Xref)
    requires x in s
    ensures x !in s[..FirstIndexOf(s, x)]
  {
  }

  lemma NotInPrefix(s: seq<Xref>, i: nat, x: Xref)
    requires i <= |s| && x !in s[..i]
    ensures forall j :: 0 <= j < i ==> s[j] != x
  {
    forall j | 0 <= j < i ensures s[j] != x {
      assert s[..i][j] == s[j];
    }
  }

  /** A kept reference is the first occurrence of its xref on its page. */
  lemma KeptIsFirstOccurrence(doc: Document, e: Entry)
    requires Kept(doc, e)
    ensures e.index == FirstIndexOf(doc[e.page], e.xref)
  {
    NotInPrefix(doc[e.page], e.index, e.xref);
  }

  lemma SeenIsPrefix(page: Page, k: nat, x: Xref)
    requires k <= |page|
    ensures x in Seen(page, k) <==> x in page[..k]
  {
    if x in page[..k] {
      var j :| 0 <= j < k && page[..k][j] == x;
    }
  }

  // ---------------------------------------------------------------------------
  // Which references are kept

  lemma {:induction false} PageEntriesMembers(p: nat, page: Page, k: nat, e: Entry)
    requires k <= |page|
    ensures e in PageEntries(p, page, k) <==>
      e.page == p && e.index < k && e.xref == page[e.index] && page[e.index] !in Seen(page, e.index)
    decreases k
  {
    if k > 0 {
      PageEntriesMembers(p, page, k - 1, e);
    }
  }

  lemma {:induction false} PagesEntriesMembers(doc: Document, n: nat, e: Entry)
    requires n <= |doc|
    ensures e in PagesEntries(doc, n) <==>
      && e.page < n && e.index < |doc[e.page]| && e.xref == doc[e.page][e.index]
      && doc[e.page][e.index] !in Seen(doc[e.page], e.index)
    decreases n
  {
    if n > 0 {
      var a, b := PagesEntries(doc, n - 1), PageEntries(n - 1, doc[n - 1], |doc[n - 1]|);
      assert PagesEntries(doc, n) == a + b;
      assert e in a + b <==> e in a || e in b;
      PagesEntriesMembers(doc, n - 1, e);
      PageEntriesMembers(n - 1, doc[n - 1], |doc[n - 1]|, e);
    }
  }

  /** The deduplication is per page: an entry is saved exactly when its reference is the
      first occurrence of its xref on its own page, whatever other pages list. */
  lemma EntriesCharacterisation(doc: Document, e: Entry)
    ensures e in Entries(doc) <==> Kept(doc, e)
  {
    PagesEntriesMembers(doc, |doc|, e);
    if e.page < |doc| && e.index < |doc[e.page]| {
      SeenIsPrefix(doc[e.page], e.index, doc[e.page][e.index]);
    }
  }

  lemma EntriesAllKept(doc: Document)
    ensures forall i :: 0 <= i < |Entries(doc)| ==> Kept(doc, Entries(doc)[i])
  {
    forall i | 0 <= i < |Entries(doc)| ensures Kept(doc, Entries(doc)[i]) {
      EntriesCharacterisation(doc, Entries(doc)[i]);
    }
  }

  // ---------------------------------------------------------------------------
  // Order

  lemma {:induction false} PageEntriesOrdered(p: nat, page: Page, k: nat)
    requires k <= |page|
    ensures OnPageInOrder(PageEntries(p, page, k), p, k)
    decreases k
  {
    if k > 0 {
      PageEntriesOrdered(p, page, k - 1);
      var a := PageEntries(p, page, k - 1);
      var es := PageEntries(p, page, k);
      assert forall i :: 0 <= i < |a| ==> es[i] == a[i];
      assert |es| > |a| ==> es[|a|] == Entry(p, k - 1, page[k - 1]) && |es| == |a| + 1;
    }
  }

  lemma {:induction false} PagesEntriesOrdered(doc: Document, n: nat)
    requires n <= |doc|
    ensures forall i :: 0 <= i < |PagesEntries(doc, n)| ==> PagesEntries(doc, n)[i].page < n
    ensures InTraversalOrder(PagesEntries(doc, n))
    decreases n
  {
    if n > 0 {
      PagesEntriesOrdered(doc, n - 1);
      PageEntriesOrdered(n - 1, doc[n - 1], |doc[n - 1]|);
      var a, b := PagesEntries(doc, n - 1), PageEntries(n - 1, doc[n - 1], |doc[n - 1]|);
      var es := PagesEntries(doc, n);
      assert es == a + b;
      assert forall i :: 0 <= i < |a| ==> es[i] == a[i];
      assert forall i :: |a| <= i < |es| ==> es[i] == b[i - |a|];
      forall i, j | 0 <= i < j < |es| ensures Precedes(es[i], es[j]) {
        if j < |a| {
          assert Precedes(a[i], a[j]);
        } else if i >= |a| {
          assert b[i - |a|].index < b[j - |a|].index;
        } else {
          assert a[i].page < n - 1;
        }
      }
    }
  }

  // ---------------------------------------------------------------------------
  // The run over a sequence of entries

  /** A run saves, in order, the entries up to the first one whose xref cannot be
      decoded, and stops with that entry's error; without such an entry it saves all. */
  lemma {:induction false} RunAllShape(es: seq<Entry>, images: map<Xref, Pixmap>, convertToRgb: Pixmap -> Pixmap)
    ensures RunShape(es, images, convertToRgb, RunAll(es, images, convertToRgb))
    decreases |es|
  {
    if es != [] {
      var init := es[..|es| - 1];
      RunAllShape(init, images, convertToRgb);
      assert forall i :: 0 <= i < |init| ==> es[i] == init[i];
    }
  }

  // ---------------------------------------------------------------------------
  // The properties of a whole extraction run

  /** Saved names are strictly increasing by (page, image number). */
  lemma OutputOrdered(doc: Document, images: map<Xref, Pixmap>, convertToRgb: Pixmap -> Pixmap)
    ensures var saved := Extract(doc, images, convertToRgb).saved;
      forall i, j :: 0 <= i < j < |saved| ==> NameBefore(saved[i].name, saved[j].name)
  {
    var es := Entries(doc);
    var saved := Extract(doc, images, convertToRgb).saved;
    PagesEntriesOrdered(doc, |doc|);
    RunAllShape(es, images, convertToRgb);
    forall i, j | 0 <= i < j < |saved| ensures NameBefore(saved[i].name, saved[j].name) {
      assert Precedes(es[i], es[j]);
    }
  }

  /** No two saved images share a path, so no file of the run overwrites another. */
  lemma OutputPathsDistinct(doc: Document, images: map<Xref, Pixmap>, convertToRgb: Pixmap -> Pixmap, dir: string)
    ensures var paths := Paths(dir, Extract(doc, images, convertToRgb).saved);
      forall i, j :: 0 <= i < |paths| && 0 <= j < |paths| && i != j ==> paths[i] != paths[j]
  {
    var saved := Extract(doc, images, convertToRgb).saved;
    var paths := Paths(dir, saved);
    OutputOrdered(doc, images, convertToRgb);
    forall i, j | 0 <= i < |paths| && 0 <= j < |paths| && i != j ensures paths[i] != paths[j] {
      assert saved[i].name != saved[j].name;
      if paths[i] == paths[j] {
        FilePathInjective(dir, saved[i].name, saved[j].name);
      }
    }
  }

  /** Every saved name points at a reference of the document (page from 1 to the page
      count, image number from 1 to the length of that page's list) that is the first
      occurrence of its xref on the page; the ordinal counts skipped duplicates. */
  lemma OutputNamesAreFirstOccurrences(doc: Document, images: map<Xref, Pixmap>, convertToRgb: Pixmap -> Pixmap)
    ensures var saved := Extract(doc, images, convertToRgb).saved;
      forall k :: 0 <= k < |saved| ==>
        var n := saved[k].name;
        && 1 <= n.page <= |doc| && 1 <= n.image <= |doc[n.page - 1]|
        && doc[n.page - 1][n.image - 1] !in doc[n.page - 1][..n.image - 1]
  {
    EntriesAllKept(doc);
    RunAllShape(Entries(doc), images, convertToRgb);
  }

  /** A completed run saves, for every page and every xref the page lists, an image;
      xrefs that reappear on other pages are saved again there. */
  lemma OutputForEveryPageXref(doc: Document, images: map<Xref, Pixmap>, convertToRgb: Pixmap -> Pixmap, p: nat, x: Xref)
    requires p < |doc| && x in doc[p]
    requires Extract(doc, images, convertToRgb).failure.None?
    ensures exists k :: 0 <= k < |Extract(doc, images, convertToRgb).saved|
                     && SavedFor(doc, Extract(doc, images, convertToRgb).saved[k], p, x)
  {
    var es := Entries(doc);
    var r := Extract(doc, images, convertToRgb);
    RunAllShape(es, images, convertToRgb);
    var i := FirstIndexOf(doc[p], x);
    NotInPrefixOfFirst(doc[p], x);
    EntriesCharacterisation(doc, Entry(p, i, x));
    var t :| 0 <= t < |es| && es[t] == Entry(p, i, x);
    assert SavedFor(doc, r.saved[t], p, x);
  }

  /** Within one page an xref is saved at most once: later references to it are skipped. */
  lemma OutputAtMostOncePerPageXref(doc: Document, images: map<Xref, Pixmap>, convertToRgb: Pixmap -> Pixmap,
                                    p: nat, x: Xref, k1: nat, k2: nat)
    requires k1 < |Extract(doc, images, convertToRgb).saved| && k2 < |Extract(doc, images, convertToRgb).saved|
    requires SavedFor(doc, Extract(doc, images, convertToRgb).saved[k1], p, x)
    requires SavedFor(doc, Extract(doc, images, convertToRgb).saved[k2], p, x)
    ensures k1 == k2
  {
    var es := Entries(doc);
    EntriesAllKept(doc);
    PagesEntriesOrdered(doc, |doc|);
    RunAllShape(es, images, convertToRgb);
    assert Kept(doc, es[k1]) && Kept(doc, es[k2]);
    KeptIsFirstOccurrence(doc, es[k1]);
    KeptIsFirstOccurrence(doc, es[k2]);
    assert es[k1] == es[k2];
    assert !Precedes(es[k1], es[k2]) && !Precedes(es[k2], es[k1]);
  }

  /** An xref listed on two different pages is saved once on each. */
  lemma RepeatedAcrossPages(doc: Document, images: map<Xref, Pixmap>, convertToRgb: Pixmap -> Pixmap, p: nat, q: nat, x: Xref)
    requires p < |doc| && q < |doc| && p != q && x in doc[p] && x in doc[q]
    requires Extract(doc, images, convertToRgb).failure.None?
    ensures var saved := Extract(doc, images, convertToRgb).saved;
      exists k1, k2 :: 0 <= k1 < |saved| && 0 <= k2 < |saved| && k1 != k2 &&
        SavedFor(doc, saved[k1], p, x) && SavedFor(doc, saved[k2], q, x)
  {
    OutputForEveryPageXref(doc, images, convertToRgb, p, x);
    OutputForEveryPageXref(doc, images, convertToRgb, q, x);
  }

  lemma {:induction false} PageEntriesCount(p: nat, page: Page, k: nat)
    requires k <= |page|
    ensures |PageEntries(p, page, k)| == |Seen(page, k)|
    decreases k
  {
    if k > 0 {
      PageEntriesCount(p, page, k - 1);
      SeenSnoc(page, k - 1);
      if page[k - 1] in Seen(page, k - 1) {
        assert Seen(page, k) == Seen(page, k - 1);
      } else {
        assert |Seen(page, k - 1) + {page[k - 1]}| == |Seen(page, k - 1)| + 1;
      }
    }
  }

  lemma {:induction false} PagesEntriesCount(doc: Document, n: nat)
    requires n <= |doc|
    ensures |PagesEntries(doc, n)| == DistinctImageCount(doc, n)
    decreases n
  {
    if n > 0 {
      PagesEntriesCount(doc, n - 1);
      var page := doc[n - 1];
      var here := PageEntries(n - 1, page, |page|);
      PageEntriesCount(n - 1, page, |page|);
      SeenAll(page);
      assert |here| == |Xrefs(page)|;
      assert DistinctImageCount(doc, n) == DistinctImageCount(doc, n - 1) + |Xrefs(page)|;
      assert PagesEntries(doc, n) == PagesEntries(doc, n - 1) + here;
    }
  }

  /** A completed run saves as many images as there are distinct xrefs per page, added
      up over the pages; one that failed saved fewer. */
  lemma OutputCount(doc: Document, images: map<Xref, Pixmap>, convertToRgb: Pixmap -> Pixmap)
    ensures var r := Extract(doc, images, convertToRgb);
      && (r.failure.None? ==> |r.saved| == DistinctImageCount(doc, |doc|))
      && (r.failure.Some? ==> |r.saved| < DistinctImageCount(doc, |doc|))
  {
    PagesEntriesCount(doc, |doc|);
    RunAllShape(Entries(doc), images, convertToRgb);
  }

  lemma {:induction false} NoImagesNoEntries(doc: Document, n: nat)
    requires n <= |doc|
    requires forall p :: 0 <= p < |doc| ==> doc[p] == []
    ensures PagesEntries(doc, n) == []
    decreases n
  {
    if n > 0 {
      NoImagesNoEntries(doc, n - 1);
    }
  }

  /** A document whose pages list no images yields an empty, successful result. */
  lemma NoImagesNoOutput(doc: Document, images: map<Xref, Pixmap>, convertToRgb: Pixmap -> Pixmap, dir: string)
    requires forall p :: 0 <= p < |doc| ==> doc[p] == []
    ensures Extract(doc, images, convertToRgb) == Run([], None)
    ensures Returned(dir, Extract(doc, images, convertToRgb)) == Success([])
  {
    NoImagesNoEntries(doc, |doc|);
  }

  /** Every saved image is the normalised decoding of the xref its name points at; when
      the conversion yields RGB, no saved image has more than three colour channels. */
  lemma OutputPixmaps(doc: Document, images: map<Xref, Pixmap>, convertToRgb: Pixmap -> Pixmap)
    ensures var saved := Extract(doc, images, convertToRgb).saved;
      forall k :: 0 <= k < |saved| ==>
        var n := saved[k].name;
        && 1 <= n.page <= |doc| && 1 <= n.image <= |doc[n.page - 1]|
        && doc[n.page - 1][n.image - 1] in images
        && saved[k].pix == Normalise(images[doc[n.page - 1][n.image - 1]], convertToRgb)
        && (ProducesRgb(convertToRgb) ==> saved[k].pix.n <= 3)
  {
    EntriesAllKept(doc);
    RunAllShape(Entries(doc), images, convertToRgb);
  }

  // ---------------------------------------------------------------------------
  // Decode failures

  /** Every reference's xref is that of a kept entry at or before it on the same page. */
  lemma ReferenceCovered(doc: Document, q: nat, j: nat) returns (t: nat)
    requires q < |doc| && j < |doc[q]|
    ensures t < |Entries(doc)|
    ensures Entries(doc)[t].page == q && Entries(doc)[t].index <= j && Entries(doc)[t].xref == doc[q][j]
  {
    var x := doc[q][j];
    var i := FirstIndexOf(doc[q], x);
    NotInPrefixOfFirst(doc[q], x);
    EntriesCharacterisation(doc, Entry(q, i, x));
    t :| 0 <= t < |Entries(doc)| && Entries(doc)[t] == Entry(q, i, x);
  }

  /** The run completes exactly when every xref the document lists can be decoded. */
  lemma CompletesIffAllDecodable(doc: Document, images: map<Xref, Pixmap>, convertToRgb: Pixmap -> Pixmap)
    ensures Extract(doc, images, convertToRgb).failure.None? <==>
      forall q, j :: 0 <= q < |doc| && 0 <= j < |doc[q]| ==> doc[q][j] in images
  {
    var es := Entries(doc);
    var r := Extract(doc, images, convertToRgb);
    EntriesAllKept(doc);
    RunAllShape(es, images, convertToRgb);
    if r.failure.None? {
      forall q, j | 0 <= q < |doc| && 0 <= j < |doc[q]| ensures doc[q][j] in images {
        var t := ReferenceCovered(doc, q, j);
      }
    }
  }

  /** Reference (p, i) holds an undecodable xref and every reference met before it
      decodes. */
  ghost predicate FirstUndecodable(doc: Document, images: map<Xref, Pixmap>, p: nat, i: nat) {
    && p < |doc| && i < |doc[p]| && doc[p][i] !in images
    && forall q, j :: 0 <= q < |doc| && 0 <= j < |doc[q]| && (q < p || (q == p && j < i)) ==> doc[q][j] in images
  }

  /** A failed run stops at the first undecodable reference in page order and reports its
      page and xref: every reference met before that one decodes. (That the images of the
      entries before it were all saved is the failure case of RunAllShape.) */
  lemma FailsAtFirstUndecodable(doc: Document, images: map<Xref, Pixmap>, convertToRgb: Pixmap -> Pixmap)
    requires Extract(doc, images, convertToRgb).failure.Some?
    ensures var err := Extract(doc, images, convertToRgb).failure.value;
      exists i: nat :: FirstUndecodable(doc, images, err.pageNum, i) && doc[err.pageNum][i] == err.xref
  {
    var es := Entries(doc);
    var r := Extract(doc, images, convertToRgb);
    EntriesAllKept(doc);
    PagesEntriesOrdered(doc, |doc|);
    RunAllShape(es, images, convertToRgb);
    var m := |r.saved|;
    var p, i := es[m].page, es[m].index;
    forall q, j | 0 <= q < |doc| && 0 <= j < |doc[q]| && (q < p || (q == p && j < i))
      ensures doc[q][j] in images
    {
      var t := ReferenceCovered(doc, q, j);
      assert Precedes(es[t], es[m]);
      assert !Precedes(es[m], es[t]);
    }
    assert FirstUndecodable(doc, images, p, i);
  }

  // ---------------------------------------------------------------------------
  // Two documents worked through

  /** A duplicate on a page is skipped and its position is not reused: the page
      [10, 10, 20] yields images 1 and 3. */
  lemma DuplicateLeavesGap()
    ensures Entries([[10, 10, 20]]) == [Entry(0, 0, 10), Entry(0, 2, 20)]
    ensures FileName(NameOf(Entry(0, 2, 20))) == "page_1_image_3.png"
  {
    var page: Page := [10, 10, 20];
    SeenSnoc(page, 0);
    SeenSnoc(page, 1);
    assert Seen(page, 0) == {};
    assert PageEntries(0, page, 3) == [Entry(0, 0, 10), Entry(0, 2, 20)];
    assert PagesEntries([page], 1) == PagesEntries([page], 0) + PageEntries(0, page, 3);
  }

  /** Three pages, the first with two images, the second with none, the third reusing an
      image of the first: three images are kept, and when both decode, all three are
      saved, the reused one again as image 1 of page 3. */
  lemma ReuseOnLaterPageSavedAgain(images: map<Xref, Pixmap>, convertToRgb: Pixmap -> Pixmap)
    requires 10 in images && 20 in images
    ensures Entries([[10, 20], [], [10]]) == [Entry(0, 0, 10), Entry(0, 1, 20), Entry(2, 0, 10)]
    ensures var r := Extract([[10, 20], [], [10]], images, convertToRgb);
      && r.failure.None? && |r.saved| == 3
      && r.saved[2] == Saved(Name(3, 1), Normalise(images[10], convertToRgb))
  {
    var doc: Document := [[10, 20], [], [10]];
    SeenSnoc(doc[0], 0);
    SeenSnoc(doc[0], 1);
    assert Seen(doc[0], 0) == {} && Seen(doc[2], 0) == {};
    assert PageEntries(0, doc[0], 2) == [Entry(0, 0, 10), Entry(0, 1, 20)];
    assert PageEntries(1, doc[1], 0) == [];
    assert PageEntries(2, doc[2], 1) == [Entry(2, 0, 10)];
    assert PagesEntries(doc, 1) == [Entry(0, 0, 10), Entry(0, 1, 20)];
    assert PagesEntries(doc, 2) == PagesEntries(doc, 1);
    assert Entries(doc) == [Entry(0, 0, 10), Entry(0, 1, 20), Entry(2, 0, 10)];
    RunAllShape(Entries(doc), images, convertToRgb);
    CompletesIffAllDecodable(doc, images, convertToRgb);
  }
}
