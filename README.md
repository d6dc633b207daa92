# Extracting the images of a PDF, page by page

This project models `extract_images_from_pdf_bytes` from `Extract_PDF_Image.py`. The function opens a PDF held in memory, walks its pages in order, and walks each page's list of image references. It skips a reference whose xref (the image object's cross-reference number) has already been met on the same page. It decodes every other reference to a pixmap and converts the pixmap to RGB when it has an alpha channel or more than three colour components. It saves the pixmap as `page_<page>_image_<position>.png` in the output directory, and appends that path to the list it returns.

The model has four modules:

- `Wrappers`: `Option` and `Result`.
- `ImageNaming`: the file name `page_{page_num + 1}_image_{img_index + 1}.png` and the path `<dir>/<name>`. Decimal notation of a natural number is written out, and the module proves that different (page, image) pairs give different names and paths.
- `Normalisation`: a pixmap is reduced to what the code looks at, namely whether it has an alpha channel and its number of colour components `n`. The conversion `fitz.Pixmap(fitz.csRGB, pix)` is a function parameter. `Normalise` is the specification and `NormalisePixmap` the reassigning code.
- `Extraction`: the opened document is a sequence of pages, and each page is the list of xrefs `page.get_images(full=True)` yields. Decoding is a map from xref to pixmap, and an xref missing from the map is one whose decoding raises. The pure specification (`PageEntries`, `PagesEntries`, `Entries`, `Step`, `RunAll`, `Extract`) consists of two folds: the two loops' kept entries (`PagesEntries` over `PageEntries`), then the run of `Step` over those entries (`RunAll`). The source decodes while it walks and stops walking at the first failed decode; the two agree because the method below is proved equal to `Extract`. The method `ExtractImagesFromPdf` has the nested loops, the per-page `xref_seen` set that is rebuilt for every page, and the growing `image_paths` list. Its result is proved equal to the specification.
- `ExtractionProperties`: what a run promises, proved about the specification:
  - which references are saved;
  - names and ordering;
  - counts;
  - pixel normalisation;
  - where a failing run stops.

Two points about the behaviour:

- Deduplication is per page. `xref_seen` is created afresh for every page (line 52), so an image that reappears on a later page is saved again there.
- The image number is the 1-based position in the page's full list, duplicates included (line 70). A page listing `[a, a, b]` therefore yields images 1 and 3.

One might expect one file per distinct image in the whole document. The code does not do that, and the model follows the code.

A decode failure on line 60 propagates out of the function. The model returns it as `Failure(DecodeError(page, xref))`. The files saved before it stay on disk, and the method reports them as its second result `written`.

## Model

| member | source | states |
|---|---|---|
| Extraction.NameOf | Extract_PDF_Image.py:70 | Definition, no contract: the name of a kept reference is its 0-based page and position, each plus one. `DuplicateLeavesGap` and `OutputNamesAreFirstOccurrences` state what it yields. |
| Extraction.Seen | Extract_PDF_Image.py:52-58 | Definition, no contract: the seen-set after k references of a page. `SeenSnoc` and `SeenAll` state how it grows and where it ends. |
| Extraction.PageEntries | Extract_PDF_Image.py:54-58 | Definition, no contract: the inner loop as a left fold, skipping a reference whose xref is in the seen-set. `PageEntriesStep`, `PageEntriesOrdered`, `PageEntriesCount` and `EntriesCharacterisation` state its properties. |
| Extraction.PagesEntries | Extract_PDF_Image.py:47-58 | Definition, no contract: the outer loop as a left fold over pages, each page starting from an empty seen-set. `PagesEntriesOrdered`, `PagesEntriesCount` and `EntriesCharacterisation` state its properties. |
| Extraction.Entries | Extract_PDF_Image.py:47-58 | Definition, no contract: the entries of the whole document. `EntriesCharacterisation` characterises them. |
| Extraction.Step | Extract_PDF_Image.py:60-72 | Definition, no contract: decode, normalise and save one kept entry, or stop with its decode error; a stopped run stays stopped. `RunAllShape` and `RunAllPrefix` state its effect over a sequence of entries. |
| Extraction.RunAll | Extract_PDF_Image.py:45-72 | Definition, no contract: `Step` folded over the entries from an empty list. `RunAllShape` and `RunAllPrefix` state its properties. |
| Extraction.Extract | Extract_PDF_Image.py:45-78 | Definition, no contract: the whole run over a document. `ExtractImagesFromPdf` is proved to compute it; the `ExtractionProperties` lemmas state its properties. |
| Extraction.Paths | Extract_PDF_Image.py:70-72 | The path list has one entry per saved file, and entry i is the output directory joined with the name of file i. |
| Extraction.Returned | Extract_PDF_Image.py:72-78 | The result is a success exactly when no decode failed. A failure carries the run's error. A success holds one path per saved file, in order: entry i is the output directory joined with the name of saved file i. |
| ImageNaming.FileName | Extract_PDF_Image.py:70 | Definition, no contract: `page_{P}_image_{I}.png` with P and I in decimal. `FileNameInjective` states that it determines P and I. |
| ImageNaming.FilePath | Extract_PDF_Image.py:70 | Definition, no contract: the output directory, a `/`, then the file name. `FilePathInjective` states that it determines the name. |
| Extraction.ExtractImagesFromPdf | Extract_PDF_Image.py:45-72 | The nested loops with the per-page seen-set and the appended path list. The files written are exactly those of the specification run `Extract`. The result is every path in order when no decode fails, and otherwise the error of the first failing decode. The loop keeps these facts: the seen-set holds the xrefs of the references met so far on the page, and equals the page's xref set at its end; the list written so far is always a prefix of the final one. |
| Extraction.PageEntriesStep | Extract_PDF_Image.py:54-58 | A reference whose xref is already in the page's seen-set leaves the kept entries unchanged. A new one appends exactly its own entry. |
| Extraction.SeenSnoc | Extract_PDF_Image.py:58 | After one more reference, the seen-set is the old set plus that reference's xref. |
| Extraction.SeenAll | Extract_PDF_Image.py:52-58 | After the whole page, the seen-set equals the set of xrefs the page lists. |
| Extraction.NewReferenceStep | Extract_PDF_Image.py:56-72 | Meeting a new xref either ends the whole run with that decode error, or extends the saved files by the normalised image under `page_{p+1}_image_{k+1}`. The extended list is still a prefix of what the full run saves. |
| Extraction.RunAllPrefix | Extract_PDF_Image.py:45-72 | The list is append-only: processing more references only extends what was saved. Once a decode has failed, later references change nothing. |
| Extraction.PartialEntriesPrefix | Extract_PDF_Image.py:47-58 | The entries met after any number of pages plus part of the next page are a prefix of the document's entries. |
| Extraction.PageEntriesPrefix | Extract_PDF_Image.py:54-58 | The kept entries after k references of a page are a prefix of those after m >= k references. |
| Extraction.PagesEntriesPrefix | Extract_PDF_Image.py:47 | The kept entries after n pages are a prefix of those after m >= n pages. |
| Normalisation.Normalise | Extract_PDF_Image.py:62-68 | An opaque pixmap with at most three components is unchanged. If the conversion yields three components, a pixmap with alpha or with more than three components is converted exactly once, and every result has at most three components. |
| Normalisation.NormalisePixmap | Extract_PDF_Image.py:60-68 | The reassigning code (`if pix.alpha`, then `if n > 3`) computes `Normalise`. |
| ImageNaming.Decimal | Extract_PDF_Image.py:70 | The decimal notation is a non-empty string of digits. It has exactly one digit when the number is below ten, and starts with '0' only for zero, so there are no leading zeros. |
| ImageNaming.DecimalRoundTrip | Extract_PDF_Image.py:70 | Reading back the decimal notation of n gives n. |
| ImageNaming.DecimalInjective | Extract_PDF_Image.py:70 | Different numbers have different decimal notations. |
| ImageNaming.FileNameInjective | Extract_PDF_Image.py:70 | `page_{P}_image_{I}.png` determines P and I: different names give different file names. |
| ImageNaming.FilePathInjective | Extract_PDF_Image.py:70-72 | Within one output directory, different names give different paths. |
| ExtractionProperties.EntriesCharacterisation | Extract_PDF_Image.py:47-58 | A reference (page, position, xref) is kept (handed to the decode step) if and only if it exists in the document and is the first occurrence of its xref on its own page. |
| ExtractionProperties.EntriesAllKept | Extract_PDF_Image.py:54-58 | Every kept entry is such a first occurrence. |
| ExtractionProperties.PageEntriesOrdered | Extract_PDF_Image.py:54 | A page's kept entries are on that page, below the current position, with strictly increasing positions. |
| ExtractionProperties.PagesEntriesOrdered | Extract_PDF_Image.py:47-54 | The kept entries of the first n pages lie on those pages, in strictly increasing (page, position) order. |
| ExtractionProperties.RunAllShape | Extract_PDF_Image.py:56-72 | A run saves, in order, the normalised image of each kept entry up to the first undecodable one. It stops there with that entry's page and xref, and saves all entries when there is none. |
| ExtractionProperties.OutputOrdered | Extract_PDF_Image.py:47-72 | Saved names strictly increase by (page, image number). |
| ExtractionProperties.OutputPathsDistinct | Extract_PDF_Image.py:70-72 | No two entries of the returned path list are equal, so no saved file overwrites another. |
| ExtractionProperties.OutputNamesAreFirstOccurrences | Extract_PDF_Image.py:54-70 | Every saved name has 1 <= page <= page count and 1 <= image <= length of that page's list. The reference it names is the first occurrence of its xref on that page. |
| ExtractionProperties.OutputForEveryPageXref | Extract_PDF_Image.py:52-72 | A completed run saves an image for every xref every page lists, including xrefs that other pages also list. |
| ExtractionProperties.OutputAtMostOncePerPageXref | Extract_PDF_Image.py:56-58 | On one page, an xref is saved at most once. |
| ExtractionProperties.RepeatedAcrossPages | Extract_PDF_Image.py:52 | In a completed run, an xref listed on two different pages is saved twice, once for each page, as two different files. |
| ExtractionProperties.PageEntriesCount | Extract_PDF_Image.py:54-58 | After k references, a page has kept as many entries as its seen-set has elements. |
| ExtractionProperties.PagesEntriesCount | Extract_PDF_Image.py:47-58 | The first n pages keep the sum of their numbers of distinct xrefs. |
| ExtractionProperties.OutputCount | Extract_PDF_Image.py:72-78 | A completed run returns as many paths as there are distinct xrefs per page, summed over the pages. A failed run saved fewer. |
| ExtractionProperties.NoImagesNoEntries | Extract_PDF_Image.py:47-54 | Pages without image references keep no entries. |
| ExtractionProperties.NoImagesNoOutput | Extract_PDF_Image.py:45-78 | A document without images, including an empty one, returns an empty list successfully. |
| ExtractionProperties.OutputPixmaps | Extract_PDF_Image.py:60-71 | Every saved file holds the normalised decoding of the xref its name points at. When the conversion yields RGB, that pixmap has at most three colour components. |
| ExtractionProperties.ReferenceCovered | Extract_PDF_Image.py:54-58 | Every reference has a kept entry at or before it on the same page, with the same xref. |
| ExtractionProperties.CompletesIffAllDecodable | Extract_PDF_Image.py:60 | The run completes if and only if every xref the document lists decodes. |
| ExtractionProperties.FailsAtFirstUndecodable | Extract_PDF_Image.py:47-60 | A failed run reports the page and xref of the first undecodable reference in traversal order. Every reference before it decodes. |
| ExtractionProperties.DuplicateLeavesGap | Extract_PDF_Image.py:56-70 | The page `[10, 10, 20]` keeps positions 0 and 2. The second image is named `page_1_image_3.png`. |
| ExtractionProperties.ReuseOnLaterPageSavedAgain | Extract_PDF_Image.py:52 | With pages `[10, 20]`, `[]` and `[10]`, three references are kept. When xrefs 10 and 20 decode, the run completes and saves three files, the third being xref 10 again, normalised, as image 1 of page 3. |

## Left out

- `download_pdf` (lines 18-33): HTTP and temporary files are outside the model.
- The `__main__` block (lines 80-95): it only drives the two functions and removes the temporary file.
- `fitz.open` and `page.get_images`: PDF parsing is a foreign library. Its output is the `Document` parameter, with the pages in order and the xrefs of each page's image list.
- `fitz.Pixmap(pdf_document, xref)`: decoding is a foreign call. It is the `images` map, and a missing xref stands for the exception the library raises. No other exception is modelled.
- `pix.save`: PNG encoding and writing the file are not modelled. A saved file is the pair of its name and its pixmap. A failure while saving is not modelled.
- `fitz.Pixmap(fitz.csRGB, pix)`: the conversion is the `convertToRgb` parameter. Its only assumed property is that the result has three components, and only where a contract says so.
- Normalise: does not establish that the saved image has no alpha channel. The conversion is modelled only by its channel count, which is all the code inspects after it.
- A pixmap without a colourspace (where `pix.colorspace.n` would raise) is not modelled, since `n` is always present.
- Creating the output directory (lines 41-42), `pdf_document.close()` and freeing the pixmap are side effects with no bearing on the result.
- Logging is not modelled.
- `output_dir / name` is modelled as `dir + "/" + name`. `pathlib`'s normalisation of the directory string is not modelled.
