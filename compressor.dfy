/**
  The gallery compressor: the two configured galleries, the per-directory
  selection loop of `process_dir` and the aggregation and report of `main`.

  Pillow and the filesystem are outside the model. A directory is given as
  its listing in the order `sorted(directory.iterdir())` yields it; each
  entry is either a regular file, carrying what Pillow makes of it, or
  something else (`is_file()` is false). Pillow's effect on a file is the
  derivative's colour mode and size; a file on which Pillow raises, at any
  step of `resize_and_save`, is `Broken` and aborts the whole run.
*/
module Compressor {
  import opened Wrappers
  import opened Dimensions
  import opened Names

  /** JPEG quality every derivative is saved with (`JPEG_QUALITY`). */
  const JpegQuality: nat := 85

  /** The two configured galleries. */
  datatype Gallery = Erps | Erbts

  /** The gallery's name: the literal its source pattern starts with and the prefix of its outputs. */
  function Stem(g: Gallery): string {
    match g
    case Erps => "erps"
    case Erbts => "erbts"
  }

  /** The gallery's directory, relative to the project root. */
  function Directory(g: Gallery): string {
    "images/" + Stem(g)
  }

  /** What Pillow reports for a decoded image: its colour mode and its size. */
  datatype Picture = Picture(mode: string, size: Size)

  /** A regular file as Pillow sees it: an image it can process, or one on which it raises. */
  datatype ImageFile = Image(picture: Picture) | Broken

  /** One directory entry. */
  datatype Entry = File(name: string, file: ImageFile) | NotAFile(name: string)

  /** An output written by `resize_and_save`: its directory and name, its source, and its picture. */
  datatype Derivative = Derivative(dir: string, name: string, source: string, picture: Picture)

  /** The result of `process_dir`: the list `saved`, or the outputs written before Pillow raised on `culprit`. */
  datatype DirOutcome = Finished(saved: seq<Derivative>) | Aborted(written: seq<Derivative>, culprit: string)

  /** The text `main` prints after a complete run. */
  datatype Report = NothingFound | Wrote(count: nat, maxEdge: nat, quality: nat, paths: seq<string>)

  /** The result of `main`: a report, or an abort after writing some outputs. */
  datatype RunOutcome = Reported(report: Report, written: seq<Derivative>) | Crashed(written: seq<Derivative>, culprit: string)

  /** The colour mode a picture is saved in: `RGBA` and palette (`P`) images are converted to `RGB`. */
  function JpegMode(mode: string): (m: string)
    ensures m != "RGBA" && m != "P"
    ensures mode == "RGBA" || mode == "P" ==> m == "RGB"
    ensures mode != "RGBA" && mode != "P" ==> m == mode
  {
    if mode == "RGBA" || mode == "P" then "RGB" else mode
  }

  /** The picture `resize_and_save` writes for a decoded image. */
  function Derive(p: Picture): (d: Picture)
    ensures Fits(d.size)
    ensures Fits(p.size) ==> d.size == p.size
    ensures ObeysRule(p.size, d.size)
    ensures d.mode != "RGBA" && d.mode != "P"
    ensures p.mode == "RGBA" || p.mode == "P" ==> d.mode == "RGB"
    ensures p.mode != "RGBA" && p.mode != "P" ==> d.mode == p.mode
  {
    TargetSizeObeysRule(p.size);
    Picture(JpegMode(p.mode), TargetSize(p.size))
  }

  /** The path of a derivative, `directory / out_name`. */
  function PathOf(d: Derivative): (p: string)
    ensures |p| == |d.dir| + 1 + |d.name|
    ensures p[..|d.dir|] == d.dir && p[|d.dir|] == '/'
    ensures p[|d.dir| + 1..] == d.name
  {
    d.dir + "/" + d.name
  }

  /** The entry is a regular file whose name the pattern built from `stem` matches. */
  predicate IsSource(e: Entry, stem: string) {
    e.File? && MatchSource(stem, e.name).Some?
  }

  /** The derivative of a source entry that Pillow can process. */
  function DerivativeOf(e: Entry, dir: string, stem: string, prefix: string): (d: Derivative)
    requires IsSource(e, stem) && e.file.Image?
  {
    Derivative(dir, OutName(prefix, MatchSource(stem, e.name).value), e.name, Derive(e.file.picture))
  }

  /** One iteration of the loop of `process_dir`. */
  function Visit(acc: DirOutcome, e: Entry, dir: string, stem: string, prefix: string): DirOutcome {
    match acc
    case Aborted(_, _) => acc
    case Finished(saved) =>
      if !IsSource(e, stem) then acc
      else if e.file.Broken? then Aborted(saved, e.name)
      else Finished(saved + [DerivativeOf(e, dir, stem, prefix)])
  }

  /** `process_dir` over a listing, as a function of the listing. */
  function ProcessAll(listing: seq<Entry>, dir: string, stem: string, prefix: string): DirOutcome {
    if listing == [] then Finished([])
    else Visit(ProcessAll(listing[..|listing| - 1], dir, stem, prefix), listing[|listing| - 1], dir, stem, prefix)
  }

  /** The entries of the listing that are sources, in listing order. */
  function Sources(listing: seq<Entry>, stem: string): (s: seq<Entry>)
    ensures forall i :: 0 <= i < |s| ==> IsSource(s[i], stem)
    ensures |s| <= |listing|
  {
    if listing == [] then []
    else
      var init := Sources(listing[..|listing| - 1], stem);
      if IsSource(listing[|listing| - 1], stem) then init + [listing[|listing| - 1]] else init
  }

  /**
    `process_dir(directory, pattern, prefix)` over the sorted listing of the
    directory, with `stem` the literal the pattern is built from.
  */
  method ProcessDir(listing: seq<Entry>, dir: string, stem: string, prefix: string) returns (o: DirOutcome)
    ensures o == ProcessAll(listing, dir, stem, prefix)
  {
    var saved: seq<Derivative> := [];
    for i := 0 to |listing|
      invariant ProcessAll(listing[..i], dir, stem, prefix) == Finished(saved)
    {
      var f := listing[i];
      assert listing[..i + 1][..i] == listing[..i];
      assert ProcessAll(listing[..i + 1], dir, stem, prefix) == Visit(Finished(saved), f, dir, stem, prefix);
      if !f.File? {
        continue;
      }
      var m := MatchSource(stem, f.name);
      if m.None? {
        continue;
      }
      var num := m.value;
      var outName := OutName(prefix, num);
      if f.file.Broken? {
        AbortPersists(listing, i + 1, dir, stem, prefix);
        assert listing[..|listing|] == listing;
        return Aborted(saved, f.name);
      }
      saved := saved + [Derivative(dir, outName, f.name, Derive(f.file.picture))];
    }
    assert listing[..|listing|] == listing;
    return Finished(saved);
  }

  /** Once an entry has aborted the loop, later entries change nothing. */
  lemma {:induction false} AbortPersists(listing: seq<Entry>, i: nat, dir: string, stem: string, prefix: string)
    requires i <= |listing| && ProcessAll(listing[..i], dir, stem, prefix).Aborted?
    ensures ProcessAll(listing, dir, stem, prefix) == ProcessAll(listing[..i], dir, stem, prefix)
  {
    if i < |listing| {
      var init := listing[..|listing| - 1];
      assert init[..i] == listing[..i];
      AbortPersists(init, i, dir, stem, prefix);
    } else {
      assert listing[..i] == listing;
    }
  }

  /**
    `process_dir` completes exactly when Pillow can process every source,
    and then produces one derivative per source, in listing order, and
    nothing for any other entry.
  */
  lemma {:induction false} ProcessAllFinished(listing: seq<Entry>, dir: string, stem: string, prefix: string)
    ensures ProcessAll(listing, dir, stem, prefix).Finished?
            <==> forall e :: e in Sources(listing, stem) ==> e.file.Image?
    ensures ProcessAll(listing, dir, stem, prefix).Finished? ==>
              var saved, src := ProcessAll(listing, dir, stem, prefix).saved, Sources(listing, stem);
              |saved| == |src| && forall i :: 0 <= i < |saved| ==> saved[i] == DerivativeOf(src[i], dir, stem, prefix)
  {
    if listing != [] {
      var init := listing[..|listing| - 1];
      ProcessAllFinished(init, dir, stem, prefix);
    }
  }

  /**
    `process_dir` aborts on the first source Pillow cannot process, after
    writing the derivatives of the sources before it.
  */
  lemma {:induction false} ProcessAllAborted(listing: seq<Entry>, dir: string, stem: string, prefix: string)
      returns (k: nat)
    requires ProcessAll(listing, dir, stem, prefix).Aborted?
    ensures k < |listing| && IsSource(listing[k], stem) && listing[k].file.Broken?
    ensures listing[k].name == ProcessAll(listing, dir, stem, prefix).culprit
    ensures ProcessAll(listing[..k], dir, stem, prefix) == Finished(ProcessAll(listing, dir, stem, prefix).written)
  {
    var init := listing[..|listing| - 1];
    if ProcessAll(init, dir, stem, prefix).Aborted? {
      k := ProcessAllAborted(init, dir, stem, prefix);
      assert init[..k] == listing[..k];
    } else {
      k := |listing| - 1;
    }
  }

  /** An entry is among the sources exactly when it is in the listing and is a source. */
  lemma {:induction false} SourcesMembership(listing: seq<Entry>, stem: string, e: Entry)
    ensures e in Sources(listing, stem) <==> e in listing && IsSource(e, stem)
  {
    if listing != [] {
      var init := listing[..|listing| - 1];
      SourcesMembership(init, stem, e);
      assert listing == init + [listing[|listing| - 1]];
    }
  }

  /** Splitting a listing splits its sources. */
  lemma {:induction false} SourcesAppend(a: seq<Entry>, b: seq<Entry>, stem: string)
    ensures Sources(a + b, stem) == Sources(a, stem) + Sources(b, stem)
  {
    if b != [] {
      var initB := b[..|b| - 1];
      assert (a + b)[..|a + b| - 1] == a + initB;
      SourcesAppend(a, initB, stem);
    } else {
      assert a + b == a;
    }
  }

  /** The outcome depends only on the sources: every other entry is skipped. */
  lemma {:induction false} ProcessAllOnlySources(listing: seq<Entry>, dir: string, stem: string, prefix: string)
    ensures ProcessAll(listing, dir, stem, prefix) == ProcessAll(Sources(listing, stem), dir, stem, prefix)
  {
    if listing != [] {
      var init := listing[..|listing| - 1];
      var src := Sources(listing, stem);
      ProcessAllOnlySources(init, dir, stem, prefix);
      if IsSource(listing[|listing| - 1], stem) {
        assert src[..|src| - 1] == Sources(init, stem);
      }
    }
  }

  /** Strict lexicographic order of code points, the order `sorted` puts names of one directory in. */
  predicate NameBefore(a: string, b: string) {
    if a == [] then b != []
    else b != [] && (a[0] < b[0] || (a[0] == b[0] && NameBefore(a[1..], b[1..])))
  }

  predicate SortedByName(listing: seq<Entry>) {
    forall i, j :: 0 <= i < j < |listing| ==> NameBefore(listing[i].name, listing[j].name)
  }

  /** The sources of a sorted listing are taken in sorted order. */
  lemma {:induction false} SourcesKeepOrder(listing: seq<Entry>, stem: string)
    requires SortedByName(listing)
    ensures SortedByName(Sources(listing, stem))
  {
    if listing != [] {
      var n := |listing|;
      var init := listing[..n - 1];
      assert SortedByName(init);
      SourcesKeepOrder(init, stem);
      var src := Sources(listing, stem);
      if IsSource(listing[n - 1], stem) {
        forall i | 0 <= i < |src| - 1
          ensures NameBefore(src[i].name, listing[n - 1].name)
        {
          SourcesMembership(init, stem, src[i]);
          var j :| 0 <= j < n - 1 && init[j] == src[i];
          assert listing[j] == src[i];
        }
      }
    }
  }

  /**
    The name of a gallery's derivative matches neither gallery's source
    pattern, so a later run never takes a derivative for a source.
  */
  lemma DerivativeNotSource(g: Gallery, h: Gallery, e: Entry)
    requires IsSource(e, Stem(g)) && e.file.Image?
    ensures MatchSource(Stem(h), DerivativeOf(e, Directory(g), Stem(g), Stem(g)).name) == None
  {
    var digits := MatchSource(Stem(g), e.name).value;
    var name := OutName(Stem(g), digits);
    if g == h {
      OutNameNotSource(Stem(g), digits);
    } else {
      assert name[..|Stem(h)|][2] == Stem(g)[2];
      assert !SameIgnoringCase(name[..|Stem(h)|], Stem(h));
    }
  }

  /** No name is a source of both galleries. */
  lemma GalleriesDisjoint(name: string)
    ensures !(MatchSource(Stem(Erps), name).Some? && MatchSource(Stem(Erbts), name).Some?)
  {
    if MatchSource(Stem(Erps), name).Some? {
      assert Fold(name[..4][2]) == 'p';
      assert |name| < 5 || Fold(name[..5][2]) != Fold(Stem(Erbts)[2]);
    }
  }

  /** What `main` prints once every gallery has been processed. */
  function Summarise(all: seq<Derivative>): (r: Report)
    ensures r.NothingFound? <==> all == []
    ensures r.Wrote? ==> r.count == |all| == |r.paths| && r.maxEdge == MaxEdge && r.quality == JpegQuality
    ensures r.Wrote? ==> forall i :: 0 <= i < |all| ==> r.paths[i] == PathOf(all[i])
  {
    if all == [] then NothingFound
    else Wrote(|all|, MaxEdge, JpegQuality, seq(|all|, i requires 0 <= i < |all| => PathOf(all[i])))
  }

  /** The gallery's outcome: a missing directory (`None`) is skipped. */
  function GalleryOutcome(listing: Option<seq<Entry>>, g: Gallery): DirOutcome {
    match listing
    case None => Finished([])
    case Some(l) => ProcessAll(l, Directory(g), Stem(g), Stem(g))
  }

  /**
    `main`: processes the erps gallery, then the erbts gallery (each only
    when its directory exists), and reports. A listing of `None` stands for
    a directory that does not exist.
  */
  method Run(erps: Option<seq<Entry>>, erbts: Option<seq<Entry>>) returns (r: RunOutcome)
    ensures var a, b := GalleryOutcome(erps, Erps), GalleryOutcome(erbts, Erbts);
            if a.Aborted? then r == Crashed(a.written, a.culprit)
            else if b.Aborted? then r == Crashed(a.saved + b.written, b.culprit)
            else r == Reported(Summarise(a.saved + b.saved), a.saved + b.saved)
  {
    ghost var a, b := GalleryOutcome(erps, Erps), GalleryOutcome(erbts, Erbts);
    var allSaved: seq<Derivative> := [];
    if erps.Some? {
      var o := ProcessDir(erps.value, Directory(Erps), Stem(Erps), Stem(Erps));
      if o.Aborted? {
        return Crashed(o.written, o.culprit);
      }
      allSaved := allSaved + o.saved;
    }
    assert a.Finished? && allSaved == a.saved;
    if erbts.Some? {
      var o := ProcessDir(erbts.value, Directory(Erbts), Stem(Erbts), Stem(Erbts));
      if o.Aborted? {
        return Crashed(allSaved + o.written, o.culprit);
      }
      allSaved := allSaved + o.saved;
    }
    assert b.Finished? && allSaved == a.saved + b.saved;
    return Reported(Summarise(allSaved), allSaved);
  }

  /** The sources of a gallery: none when its directory is missing. */
  function GallerySources(listing: Option<seq<Entry>>, g: Gallery): seq<Entry> {
    match listing
    case None => []
    case Some(l) => Sources(l, Stem(g))
  }

  /**
    A run ends with "nothing found" exactly when neither existing gallery
    directory holds a source.
  */
  lemma NothingFoundIffNoSources(erps: Option<seq<Entry>>, erbts: Option<seq<Entry>>)
    ensures var a, b := GalleryOutcome(erps, Erps), GalleryOutcome(erbts, Erbts);
            (a.Finished? && b.Finished? && a.saved + b.saved == [])
            <==> GallerySources(erps, Erps) == [] && GallerySources(erbts, Erbts) == []
  {
    if erps.Some? {
      ProcessAllFinished(erps.value, Directory(Erps), Stem(Erps), Stem(Erps));
    }
    if erbts.Some? {
      ProcessAllFinished(erbts.value, Directory(Erbts), Stem(Erbts), Stem(Erbts));
    }
  }

  /** A directory holding one portrait original (3168 x 4752) yields `erps001.jpg` at 1280 x 1920. */
  lemma PortraitScenario()
    ensures GalleryOutcome(Some([File("erps001_orig.JPG", Image(Picture("RGB", Size(3168, 4752))))]), Erps)
            == Finished([Derivative("images/erps", "erps001.jpg", "erps001_orig.JPG", Picture("RGB", Size(1280, 1920)))])
  {
    var listing := [File("erps001_orig.JPG", Image(Picture("RGB", Size(3168, 4752))))];
    DocumentedExample();
    PortraitOriginal();
    assert Directory(Erps) == "images/erps";
    assert listing[..0] == [];
    assert DerivativeOf(listing[0], "images/erps", "erps", "erps")
        == Derivative("images/erps", "erps001.jpg", "erps001_orig.JPG", Picture("RGB", Size(1280, 1920)));
    assert ProcessAll(listing, "images/erps", "erps", "erps")
        == Visit(Finished([]), listing[0], "images/erps", "erps", "erps");
  }

  /** A small palette image is converted to RGB and re-encoded at its own size. */
  lemma SmallImageScenario()
    ensures GalleryOutcome(Some([File("erbts007_orig.jpg", Image(Picture("P", Size(800, 600))))]), Erbts)
            == Finished([Derivative("images/erbts", "erbts007.jpg", "erbts007_orig.jpg", Picture("RGB", Size(800, 600)))])
  {
    var listing := [File("erbts007_orig.jpg", Image(Picture("P", Size(800, 600))))];
    SmallImageName();
    SmallImageKeepsSize();
    assert Directory(Erbts) == "images/erbts";
    assert OutName("erbts", "007") == "erbts007.jpg";
    assert listing[..0] == [];
    assert DerivativeOf(listing[0], "images/erbts", "erbts", "erbts")
        == Derivative("images/erbts", "erbts007.jpg", "erbts007_orig.jpg", Picture("RGB", Size(800, 600)));
    assert ProcessAll(listing, "images/erbts", "erbts", "erbts")
        == Visit(Finished([]), listing[0], "images/erbts", "erbts", "erbts");
  }

  /** The canonical name `erbts007_orig.jpg` captures `007`. */
  lemma SmallImageName()
    ensures MatchSource("erbts", "erbts007_orig.jpg") == Some("007")
  {
    MatchSourceName("erbts", "007");
    assert SourceName("erbts", "007") == "erbts007_orig.jpg";
  }

  /** Missing or source-free directories end in "nothing found" with nothing written. */
  lemma NothingFoundScenario()
    ensures GalleryOutcome(None, Erps) == Finished([])
    ensures GalleryOutcome(Some([File("erps001.jpg", Broken), NotAFile("erps002_orig.jpg")]), Erbts) == Finished([])
  {
    var listing := [File("erps001.jpg", Broken), NotAFile("erps002_orig.jpg")];
    assert "erps001.jpg"[..5][2] == 'p';
    assert !IsSource(listing[0], "erbts");
    assert listing[..0] == [] && listing[..1] == [listing[0]];
    assert Directory(Erbts) == "images/erbts";
    assert ProcessAll(listing[..1], "images/erbts", "erbts", "erbts") == Finished([]);
    assert ProcessAll(listing, "images/erbts", "erbts", "erbts") == Finished([]);
  }
}
