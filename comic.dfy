/**
 Comic discovery over Markdown metadata (`comic.py`): every
 `comics/meta/<name>.md` that has an image in `comics/images/` becomes a
 record `{meta, html}` stored under the path of its first image.

 The filesystem is the list of its paths in listing order. Converting a
 file with the Markdown instance is the parameter `convert`, from a metadata
 path to the html and the `Meta` dictionary the conversion leaves behind.
 The model assumes that every conversion fills a `Meta` of its own, which
 the Markdown library, not this source, decides.
 */
module Comic {
  import opened PyLib
  import opened Layout
  import opened Discovery

  /** What converting one metadata file yields: `Meta` (each key with its lines) and the html. */
  datatype Converted = Converted(meta: map<string, seq<string>>, html: string)

  /** One discovered comic; it is stored under its image path. */
  datatype Record = Record(meta: map<string, string>, html: string)

  const MetaExt: string := ".md"

  /** The Markdown metadata files: the names in `comics/meta/` ending in `.md`, in listing order. */
  function MetaFiles(files: seq<string>): seq<string>
  {
    Glob(files, MetaDir, MetaExt)
  }

  /** The image prefix of lines 59 and 69: the first `meta` becomes `images` and the last 2 characters go. */
  function ImagePrefix(f: string): string
  {
    DropLast(ReplaceFirst(f, "meta", "images"), 2)
  }

  /** The images a metadata file matches, `glob(prefix + '*')`, in listing order. */
  function Images(files: seq<string>, f: string): seq<string>
  {
    Glob(files, ImagePrefix(f), "")
  }

  predicate HasImage(files: seq<string>, f: string)
  {
    Images(files, f) != []
  }

  /** A listed `X.md` looks for its images under `comics/images/X.`, the dot kept. */
  lemma {:induction false} ListedFile(files: seq<string>, f: string)
    requires f in MetaFiles(files)
    ensures |MetaDir| + |MetaExt| <= |f|
    ensures f == MetaDir + Stem(f, MetaExt) + MetaExt
    ensures ImagePrefix(f) == ImagesDir + Stem(f, MetaExt) + "."
  {
    ListedShape(files, MetaExt, f);
    ImagePrefixOf(Stem(f, MetaExt), MetaExt);
  }

  /** Every `Meta` value with its lines joined by single spaces. */
  function Flatten(meta: map<string, seq<string>>): map<string, string>
  {
    map k | k in meta :: Join(meta[k])
  }

  /**
   Flattening keeps the keys and joins each value; when no line holds a
   space, the lines can be read back from the joined value.
   */
  lemma FlattenSpec(meta: map<string, seq<string>>)
    ensures Flatten(meta).Keys == meta.Keys
    ensures forall k :: k in meta ==> Flatten(meta)[k] == Join(meta[k])
    ensures forall k :: k in meta && |meta[k]| >= 1 && (forall j :: 0 <= j < |meta[k]| ==> ' ' !in meta[k][j]) ==>
              Split(Flatten(meta)[k]) == meta[k]
  {
    forall k | k in meta && |meta[k]| >= 1 && (forall j :: 0 <= j < |meta[k]| ==> ' ' !in meta[k][j])
      ensures Split(Flatten(meta)[k]) == meta[k]
    {
      SplitJoin(meta[k]);
    }
  }

  /**
   Lines 66-67: visit the keys of `Meta` one at a time and replace each value
   by its lines joined with spaces.
   */
  method FlattenMeta(meta: map<string, seq<string>>) returns (flat: map<string, string>)
    ensures flat.Keys == meta.Keys
    ensures forall k :: k in flat ==> flat[k] == Join(meta[k])
  {
    flat := map[];
    var rest := meta.Keys;
    while rest != {}
      invariant rest <= meta.Keys
      invariant flat.Keys == meta.Keys - rest
      invariant forall k :: k in flat ==> flat[k] == Join(meta[k])
      decreases |rest|
    {
      var k :| k in rest;
      flat := flat[k := Join(meta[k])];
      rest := rest - {k};
    }
  }

  /**
   What lines 59-72 do with one listed file: skip it when no image matches
   its prefix, otherwise store its record under its first image. Nothing in
   this version raises, so the exception type has a single, unused value.
   */
  function Process(files: seq<string>, convert: string -> Converted, f: string): Outcome<string, Record, ()>
  {
    var images := Images(files, f);
    if images == [] then Skip
    else Store(images[0], Record(Flatten(convert(f).meta), convert(f).html))
  }

  function Processor(files: seq<string>, convert: string -> Converted): string -> Outcome<string, Record, ()>
  {
    f => Process(files, convert, f)
  }

  /** What `fetch_comics` returns. */
  function Discover(files: seq<string>, convert: string -> Converted): Result<map<string, Record>, ()>
  {
    Fold(Processor(files, convert), MetaFiles(files))
  }

  /** The body of the loop of `fetch_comics` (lines 58-74) for one listed file. */
  method FetchComic(files: seq<string>, convert: string -> Converted, f: string)
    returns (out: Outcome<string, Record, ()>)
    ensures out == Process(files, convert, f)
  {
    // A file that no image matches is skipped.
    if Glob(files, DropLast(ReplaceFirst(f, "meta", "images"), 2), "") == [] {
      return Skip;
    }
    var converted := convert(f);
    var meta := FlattenMeta(converted.meta);
    assert meta == Flatten(converted.meta);
    // The image is looked up again for the key, in the same directory listing.
    var image := Glob(files, DropLast(ReplaceFirst(f, "meta", "images"), 2), "")[0];
    out := Store(image, Record(meta, converted.html));
    // `markdown.reset()` follows; the next conversion is assumed to fill a new `Meta`.
  }

  /** `fetch_comics` (lines 47-76). */
  method FetchComics(files: seq<string>, convert: string -> Converted) returns (comics: map<string, Record>)
    ensures Discover(files, convert) == Ok(comics)
  {
    var listing := MetaFiles(files);
    comics := map[];
    var i := 0;
    while i < |listing|
      invariant 0 <= i <= |listing|
      invariant Fold(Processor(files, convert), MetaFiles(files)[..i]) == Ok(comics)
    {
      FoldNext(files, convert, comics, i);
      var out := FetchComic(files, convert, listing[i]);
      if out.Store? {
        comics := comics[out.key := out.value];
      }
      i := i + 1;
    }
    assert MetaFiles(files)[..i] == MetaFiles(files);
  }

  /** One more iteration of the loop processes the next listed file. */
  lemma FoldNext(files: seq<string>, convert: string -> Converted, comics: map<string, Record>, i: nat)
    requires i < |MetaFiles(files)|
    requires Fold(Processor(files, convert), MetaFiles(files)[..i]) == Ok(comics)
    ensures Fold(Processor(files, convert), MetaFiles(files)[..i + 1])
            == Step(comics, Process(files, convert, MetaFiles(files)[i]))
  {
    FoldSnoc(Processor(files, convert), MetaFiles(files), i);
  }

  // ---------------------------------------------------------------------------
  // What discovery guarantees

  /**
   One iteration on a listed `comics/meta/X.md`, stated in terms of the
   listing: the file is skipped exactly when no listed path matches
   `comics/images/X.*`. Otherwise it stores, under the earliest listed path
   that matches, its flattened `Meta` and its html; it never raises.
   */
  lemma ListedOutcome(files: seq<string>, convert: string -> Converted, f: string)
    requires f in MetaFiles(files)
    ensures |MetaDir| + |MetaExt| <= |f|
    ensures Process(files, convert, f).Skip? <==>
              forall q :: q in files ==> !Matches(q, ImagesDir + Stem(f, MetaExt) + ".", "")
    ensures !Process(files, convert, f).Raise?
    ensures Process(files, convert, f).Store? ==>
              && Process(files, convert, f).value == Record(Flatten(convert(f).meta), convert(f).html)
              && exists j :: 0 <= j < |files| && files[j] == Process(files, convert, f).key
                   && Matches(files[j], ImagesDir + Stem(f, MetaExt) + ".", "")
                   && forall i :: 0 <= i < j ==> !Matches(files[i], ImagesDir + Stem(f, MetaExt) + ".", "")
  {
    ListedFile(files, f);
    GlobMembers(files, ImagePrefix(f), "");
    if HasImage(files, f) {
      GlobFirst(files, ImagePrefix(f), "");
    }
  }

  /** This version never raises: every listing yields a dictionary. */
  lemma DiscoverNeverRaises(files: seq<string>, convert: string -> Converted)
    ensures Discover(files, convert).Ok?
  {
    var p := Processor(files, convert);
    var listing := MetaFiles(files);
    FoldFailure(p, listing);
    forall i | 0 <= i < |listing| ensures !p(listing[i]).Raise? {
      assert p(listing[i]) == Process(files, convert, listing[i]);
    }
  }

  /** The keys are exactly the first images of the listed files that have one. */
  lemma DiscoveredKeys(files: seq<string>, convert: string -> Converted, comics: map<string, Record>)
    requires Discover(files, convert) == Ok(comics)
    ensures forall k :: k in comics <==>
              exists i :: 0 <= i < |MetaFiles(files)| && HasImage(files, MetaFiles(files)[i])
                && Images(files, MetaFiles(files)[i])[0] == k
  {
    var p := Processor(files, convert);
    var listing := MetaFiles(files);
    FoldKeys(p, listing, comics);
    forall i | 0 <= i < |listing|
      ensures p(listing[i]).Store? <==> HasImage(files, listing[i])
      ensures p(listing[i]).Store? ==> p(listing[i]).key == Images(files, listing[i])[0]
    {
      assert p(listing[i]) == Process(files, convert, listing[i]);
    }
  }

  /**
   The record under an image is built from the conversion of the last listed
   file whose first image it is, and from nothing else: a later file with
   the same first image overwrites an earlier one, and no `Meta` carries
   over from another file.
   */
  lemma DiscoveredLastWins(files: seq<string>, convert: string -> Converted, comics: map<string, Record>, k: string)
    requires Discover(files, convert) == Ok(comics)
    requires k in comics
    ensures exists i :: 0 <= i < |MetaFiles(files)|
              && HasImage(files, MetaFiles(files)[i]) && Images(files, MetaFiles(files)[i])[0] == k
              && comics[k] == Record(Flatten(convert(MetaFiles(files)[i]).meta), convert(MetaFiles(files)[i]).html)
              && forall j :: i < j < |MetaFiles(files)| && HasImage(files, MetaFiles(files)[j]) ==>
                   Images(files, MetaFiles(files)[j])[0] != k
  {
    var p := Processor(files, convert);
    var listing := MetaFiles(files);
    FoldLastWins(p, listing, comics, k);
    var i :| LastStore(p, listing, k, i) && p(listing[i]).value == comics[k];
    assert p(listing[i]) == Process(files, convert, listing[i]);
    forall j | i < j < |listing| && HasImage(files, listing[j]) ensures Images(files, listing[j])[0] != k {
      assert p(listing[j]) == Process(files, convert, listing[j]);
    }
  }

  /**
   A listed metadata file that no image matches contributes nothing: the
   result is the same with that file removed from the listing.
   */
  lemma NoImageNoEntry(files: seq<string>, convert: string -> Converted, i: nat)
    requires i < |MetaFiles(files)| && !HasImage(files, MetaFiles(files)[i])
    ensures Fold(Processor(files, convert), MetaFiles(files)[..i] + MetaFiles(files)[i + 1..])
            == Discover(files, convert)
  {
    FoldWithoutSkipped(Processor(files, convert), MetaFiles(files), i);
  }

  /** There are never more records than listed metadata files. */
  lemma DiscoveredSize(files: seq<string>, convert: string -> Converted, comics: map<string, Record>)
    requires Discover(files, convert) == Ok(comics)
    ensures |comics| <= |MetaFiles(files)|
  {
    FoldSize(Processor(files, convert), MetaFiles(files), comics);
  }

  /**
   Every record comes from a listed `comics/meta/X.md`: its key is an
   existing path that starts with `comics/images/X.`, its meta has the keys
   of the file's `Meta` with each value's lines joined by spaces, and its
   html is the file's html.
   */
  lemma DiscoveredRecords(files: seq<string>, convert: string -> Converted, comics: map<string, Record>)
    requires Discover(files, convert) == Ok(comics)
    ensures forall k :: k in comics ==>
              exists f :: f in MetaFiles(files) && |MetaDir| + |MetaExt| <= |f|
                && k in files && ImagesDir + Stem(f, MetaExt) + "." <= k
                && comics[k].meta.Keys == convert(f).meta.Keys
                && (forall m :: m in comics[k].meta ==> comics[k].meta[m] == Join(convert(f).meta[m]))
                && comics[k].html == convert(f).html
  {
    var listing := MetaFiles(files);
    forall k | k in comics
      ensures exists f :: f in listing && |MetaDir| + |MetaExt| <= |f|
                && k in files && ImagesDir + Stem(f, MetaExt) + "." <= k
                && comics[k].meta.Keys == convert(f).meta.Keys
                && (forall m :: m in comics[k].meta ==> comics[k].meta[m] == Join(convert(f).meta[m]))
                && comics[k].html == convert(f).html
    {
      DiscoveredLastWins(files, convert, comics, k);
      var i :| 0 <= i < |listing|
                && HasImage(files, listing[i]) && Images(files, listing[i])[0] == k
                && comics[k] == Record(Flatten(convert(listing[i]).meta), convert(listing[i]).html);
      var f := listing[i];
      FlattenSpec(convert(f).meta);
      ListedFile(files, f);
      GlobMembers(files, ImagePrefix(f), "");
      GlobStartsWithPrefix(files, ImagePrefix(f), "");
      assert k in Images(files, f);
    }
  }
}
