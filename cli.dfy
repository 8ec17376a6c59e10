/**
 Comic discovery over YAML metadata (`comic/cli.py`): every
 `comics/meta/<name>.yaml` that has an image in `comics/images/` becomes a
 record `{image, meta, html}` stored under the file's slug.

 The filesystem is the list of its paths in listing order, so the two glob
 calls of one iteration see the same directory. `yaml.load` is the
 parameter `load`, from a metadata path to the document it yields. After
 the loop, the dictionary is dumped as JSON, which raises when a record
 holds a value JSON cannot encode.
 */
module Cli {
  import opened PyLib
  import opened Layout
  import opened Discovery

  /**
   A value of a parsed YAML mapping, as far as discovery looks at it. A YAML
   date or timestamp is represented by the text its `isoformat()` returns;
   every other value (numbers, lists, nested mappings, ...) is passed through
   untouched, and only whether `json.dumps` can encode it matters (it cannot
   when a date is nested inside it, for example).
   */
  datatype Value = Text(text: string) | Stamp(iso: string) | Other(repr: string, encodable: bool)

  /**
   What `yaml.load` does with a metadata file: yield a mapping, yield anything
   that cannot be indexed by key, or raise on text that is not well-formed YAML.
   */
  datatype Doc = Mapping(fields: map<string, Value>) | NotMapping | Malformed

  /** The exceptions discovery can raise; any of them ends the whole discovery. */
  datatype Fault =
    | ParseError      // yaml.YAMLError from `load`
    | NotAMapping     // TypeError from indexing a document that is not a mapping
    | MissingLong     // KeyError: 'long'
    | MissingDate     // KeyError: 'date'
    | DateNotStamp    // AttributeError: the 'date' value has no isoformat()
    | NotSerializable // TypeError from `dumps`: a record holds a value JSON cannot encode

  /** One discovered comic. */
  datatype Record = Record(image: string, meta: map<string, Value>, html: Value)

  const MetaExt: string := ".yaml"

  /** `slugify`: the base name of the path, without its last extension, in lower case. */
  function Slugify(file: string): string
  {
    Lower(Basename(SplitExtRoot(file)))
  }

  /** A slug never holds a path separator, and lowering it again changes nothing. */
  lemma SlugShape(file: string)
    ensures '/' !in Slugify(file)
    ensures Lower(Slugify(file)) == Slugify(file)
  {
    var name := Basename(SplitExtRoot(file));
    LowerSpec(name);
    LowerSpec(Lower(name));
  }

  /** `Foo.yaml` in the metadata directory has the slug `foo`. */
  lemma SlugExample()
    ensures Slugify(MetaDir + "Foo" + MetaExt) == "foo"
  {
    StemOfPath(MetaDir, "Foo", MetaExt);
    LowerFoo();
  }

  lemma LowerFoo()
    ensures Lower("Foo") == "foo"
  {
    assert LowerChar('F') == 'f';
  }

  /** The YAML metadata files: the names in `comics/meta/` ending in `.yaml`, in listing order. */
  function MetaFiles(files: seq<string>): seq<string>
  {
    Glob(files, MetaDir, MetaExt)
  }

  /** The image prefix of line 93: the first `meta` becomes `images` and the last 4 characters go. */
  function ImagePrefix(f: string): string
  {
    DropLast(ReplaceFirst(f, "meta", "images"), 4)
  }

  /** The images a metadata file matches, `glob(prefix + '*')`, in listing order. */
  function Images(files: seq<string>, f: string): seq<string>
  {
    Glob(files, ImagePrefix(f), "")
  }

  predicate HasImage(files: seq<string>, f: string)
  {
    Images(files, f) != []
  }

  /**
   A listed `X.yaml` has the slug `x` (lower case) and looks for its images
   under `comics/images/X.`, the dot kept.
   */
  lemma {:induction false} ListedFile(files: seq<string>, f: string)
    requires f in MetaFiles(files)
    ensures |MetaDir| + |MetaExt| <= |f|
    ensures f == MetaDir + Stem(f, MetaExt) + MetaExt
    ensures Slugify(f) == Lower(Stem(f, MetaExt))
    ensures ImagePrefix(f) == ImagesDir + Stem(f, MetaExt) + "."
  {
    ListedShape(files, MetaExt, f);
    var stem := Stem(f, MetaExt);
    StemOfPath(MetaDir, stem, MetaExt);
    ImagePrefixOf(stem, MetaExt);
  }

  /**
   Lines 97-106 for one metadata file that has an image: take `long` as the
   html, replace `date` by its ISO text, drop `long`, and keep every other
   field as parsed. The exceptions come in the order the source meets them.
   */
  function Normalize(image: string, doc: Doc): Result<Record, Fault>
  {
    match doc
    case Malformed => Err(ParseError)
    case NotMapping => Err(NotAMapping)
    case Mapping(yaml) =>
      if "long" !in yaml then Err(MissingLong)
      else if "date" !in yaml then Err(MissingDate)
      else match yaml["date"]
        case Stamp(iso) => Ok(Record(image, yaml["date" := Text(iso)] - {"long"}, yaml["long"]))
        case _ => Err(DateNotStamp)
  }

  /**
   A record keeps the parsed mapping except that `long` is gone (it became the
   html) and `date` holds its ISO text; a file that is not well-formed YAML,
   not a mapping, without `long` or `date`, or whose `date` is not a
   timestamp, raises, in that order.
   */
  lemma NormalizeSpec(image: string, doc: Doc)
    ensures doc.Malformed? ==> Normalize(image, doc) == Err(ParseError)
    ensures doc.NotMapping? ==> Normalize(image, doc) == Err(NotAMapping)
    ensures doc.Mapping? && "long" !in doc.fields ==> Normalize(image, doc) == Err(MissingLong)
    ensures doc.Mapping? && "long" in doc.fields && "date" !in doc.fields ==>
              Normalize(image, doc) == Err(MissingDate)
    ensures doc.Mapping? && "long" in doc.fields && "date" in doc.fields && !doc.fields["date"].Stamp? ==>
              Normalize(image, doc) == Err(DateNotStamp)
    ensures Normalize(image, doc).Ok? <==>
              doc.Mapping? && "long" in doc.fields && "date" in doc.fields && doc.fields["date"].Stamp?
    ensures Normalize(image, doc).Ok? ==>
              var c := Normalize(image, doc).value;
              && c.image == image
              && c.html == doc.fields["long"]
              && c.meta.Keys == doc.fields.Keys - {"long"}
              && c.meta["date"] == Text(doc.fields["date"].iso)
              && forall k :: k in c.meta && k != "date" ==> c.meta[k] == doc.fields[k]
  {
  }

  /**
   What lines 90-106 do with one listed file: skip it when no image matches
   its prefix, otherwise store its record under its slug, or raise.
   */
  function Process(files: seq<string>, load: string -> Doc, f: string): Outcome<string, Record, Fault>
  {
    var images := Images(files, f);
    if images == [] then Skip
    else match Normalize(images[0], load(f))
      case Err(e) => Raise(e)
      case Ok(c) => Store(Slugify(f), c)
  }

  function Processor(files: seq<string>, load: string -> Doc): string -> Outcome<string, Record, Fault>
  {
    f => Process(files, load, f)
  }

  /** The dictionary the loop of lines 89-106 builds, or the exception it raises. */
  function Collect(files: seq<string>, load: string -> Doc): Result<map<string, Record>, Fault>
  {
    Fold(Processor(files, load), MetaFiles(files))
  }

  /** A value `json.dumps` can encode: text, or another value without a date inside. */
  predicate Encodable(v: Value)
  {
    v.Text? || (v.Other? && v.encodable)
  }

  /** A record `json.dumps` can encode: its html and every meta value can be. */
  predicate Serializable(c: Record)
  {
    Encodable(c.html) && forall k :: k in c.meta ==> Encodable(c.meta[k])
  }

  /** `dumps(comics, ...)` at line 109: it raises unless every record can be encoded. */
  function Dump(comics: map<string, Record>): Result<map<string, Record>, Fault>
  {
    if forall slug :: slug in comics ==> Serializable(comics[slug]) then Ok(comics) else Err(NotSerializable)
  }

  /** What `fetch_comics` returns, or the exception it raises: the loop, then the dump. */
  function Discover(files: seq<string>, load: string -> Doc): Result<map<string, Record>, Fault>
  {
    match Collect(files, load)
    case Err(e) => Err(e)
    case Ok(comics) => Dump(comics)
  }

  /**
   Lines 97-100 on the loaded document: read `long`, rewrite `date` in place
   with its ISO text, then delete `long`.
   */
  method LoadComic(image: string, doc: Doc) returns (r: Result<Record, Fault>)
    ensures r == Normalize(image, doc)
  {
    if doc.Malformed? {
      return Err(ParseError);
    }
    if doc.NotMapping? {
      return Err(NotAMapping);
    }
    var yaml := doc.fields;
    if "long" !in yaml {
      return Err(MissingLong);
    }
    var html := yaml["long"];
    if "date" !in yaml {
      return Err(MissingDate);
    }
    match yaml["date"] {
      case Stamp(iso) =>
        yaml := yaml["date" := Text(iso)];
      case _ =>
        return Err(DateNotStamp);
    }
    yaml := yaml - {"long"};
    r := Ok(Record(image, yaml, html));
  }

  /** The body of the loop of `fetch_comics` (lines 90-106) for one listed file. */
  method FetchComic(files: seq<string>, load: string -> Doc, f: string) returns (out: Outcome<string, Record, Fault>)
    ensures out == Process(files, load, f)
  {
    var slug := Slugify(f);

    // A file that no image matches is skipped.
    var images := Glob(files, DropLast(ReplaceFirst(f, "meta", "images"), 4), "");
    assert images == Images(files, f);
    if images == [] {
      return Skip;
    }
    var comic := LoadComic(images[0], load(f));
    if comic.Err? {
      return Raise(comic.error);
    }
    out := Store(slug, comic.value);
  }

  /** `fetch_comics` (lines 80-110): the loop, then the JSON dump; printing the dump is not modelled. */
  method FetchComics(files: seq<string>, load: string -> Doc) returns (r: Result<map<string, Record>, Fault>)
    ensures r == Discover(files, load)
  {
    var listing := MetaFiles(files);
    var comics: map<string, Record> := map[];
    var i := 0;
    while i < |listing|
      invariant 0 <= i <= |listing|
      invariant Fold(Processor(files, load), MetaFiles(files)[..i]) == Ok(comics)
    {
      FoldNext(files, load, comics, i);
      var out := FetchComic(files, load, listing[i]);
      match out {
        case Skip =>
        case Store(slug, comic) =>
          comics := comics[slug := comic];
        case Raise(e) =>
          FoldErrSticks(Processor(files, load), MetaFiles(files), i + 1);
          return Err(e);
      }
      i := i + 1;
    }
    assert MetaFiles(files)[..i] == MetaFiles(files);
    r := Dump(comics);
  }

  /** One more iteration of the loop processes the next listed file. */
  lemma FoldNext(files: seq<string>, load: string -> Doc, comics: map<string, Record>, i: nat)
    requires i < |MetaFiles(files)|
    requires Fold(Processor(files, load), MetaFiles(files)[..i]) == Ok(comics)
    ensures Fold(Processor(files, load), MetaFiles(files)[..i + 1])
            == Step(comics, Process(files, load, MetaFiles(files)[i]))
  {
    FoldSnoc(Processor(files, load), MetaFiles(files), i);
  }

  // ---------------------------------------------------------------------------
  // What discovery guarantees

  /** A loaded document from which a record can be built. */
  predicate Complete(doc: Doc)
  {
    doc.Mapping? && "long" in doc.fields && "date" in doc.fields && doc.fields["date"].Stamp?
  }

  /**
   The loop succeeds exactly when every listed file that has an image loads
   to a mapping with `long` and a timestamp `date`; otherwise it raises the
   exception of the first listed file with an image that does not.
   */
  lemma CollectFailure(files: seq<string>, load: string -> Doc)
    ensures Collect(files, load).Ok? <==>
              forall i :: 0 <= i < |MetaFiles(files)| && HasImage(files, MetaFiles(files)[i]) ==>
                Complete(load(MetaFiles(files)[i]))
    ensures Collect(files, load).Err? ==>
              exists i :: 0 <= i < |MetaFiles(files)| && HasImage(files, MetaFiles(files)[i])
                && !Complete(load(MetaFiles(files)[i]))
                && Normalize(Images(files, MetaFiles(files)[i])[0], load(MetaFiles(files)[i]))
                   == Err(Collect(files, load).error)
                && forall j :: 0 <= j < i && HasImage(files, MetaFiles(files)[j]) ==> Complete(load(MetaFiles(files)[j]))
  {
    var p := Processor(files, load);
    var listing := MetaFiles(files);
    FoldFailure(p, listing);
    forall i | 0 <= i < |listing|
      ensures p(listing[i]).Raise? <==> HasImage(files, listing[i]) && !Complete(load(listing[i]))
      ensures p(listing[i]).Raise? ==>
                Normalize(Images(files, listing[i])[0], load(listing[i])) == Err(p(listing[i]).error)
    {
      assert p(listing[i]) == Process(files, load, listing[i]);
      if HasImage(files, listing[i]) {
        NormalizeSpec(Images(files, listing[i])[0], load(listing[i]));
      }
    }
  }

  /**
   One iteration on a listed `comics/meta/X.yaml`, stated in terms of the
   listing: the file is skipped exactly when no listed path matches
   `comics/images/X.*`. Otherwise its image is the earliest listed path that
   matches, and it raises exactly when its document is not complete; when it
   does not raise, it stores under `X` lowered the record its document
   normalises to.
   */
  lemma ListedOutcome(files: seq<string>, load: string -> Doc, f: string)
    requires f in MetaFiles(files)
    ensures |MetaDir| + |MetaExt| <= |f|
    ensures Process(files, load, f).Skip? <==>
              forall q :: q in files ==> !Matches(q, ImagesDir + Stem(f, MetaExt) + ".", "")
    ensures Process(files, load, f).Raise? <==> !Process(files, load, f).Skip? && !Complete(load(f))
    ensures Process(files, load, f).Store? ==>
              var c := Process(files, load, f).value;
              && Process(files, load, f).key == Lower(Stem(f, MetaExt))
              && Normalize(c.image, load(f)) == Ok(c)
              && exists j :: 0 <= j < |files| && files[j] == c.image
                   && Matches(files[j], ImagesDir + Stem(f, MetaExt) + ".", "")
                   && forall i :: 0 <= i < j ==> !Matches(files[i], ImagesDir + Stem(f, MetaExt) + ".", "")
  {
    ListedFile(files, f);
    GlobMembers(files, ImagePrefix(f), "");
    if HasImage(files, f) {
      GlobFirst(files, ImagePrefix(f), "");
      NormalizeSpec(Images(files, f)[0], load(f));
    }
  }

  /** The keys the loop stores under are exactly the slugs of the listed files that have an image. */
  lemma DiscoveredKeys(files: seq<string>, load: string -> Doc, comics: map<string, Record>)
    requires Collect(files, load) == Ok(comics)
    ensures forall k :: k in comics <==>
              exists i :: 0 <= i < |MetaFiles(files)| && HasImage(files, MetaFiles(files)[i])
                && Slugify(MetaFiles(files)[i]) == k
  {
    var p := Processor(files, load);
    var listing := MetaFiles(files);
    FoldFailure(p, listing);
    FoldKeys(p, listing, comics);
    forall i | 0 <= i < |listing|
      ensures p(listing[i]).Store? <==> HasImage(files, listing[i])
      ensures p(listing[i]).Store? ==> p(listing[i]).key == Slugify(listing[i])
    {
      assert p(listing[i]) == Process(files, load, listing[i]);
    }
  }

  /**
   The record the loop keeps under a slug is built from the last listed file
   with an image and that slug: a later file overwrites an earlier one.
   */
  lemma DiscoveredLastWins(files: seq<string>, load: string -> Doc, comics: map<string, Record>, k: string)
    requires Collect(files, load) == Ok(comics)
    requires k in comics
    ensures exists i :: 0 <= i < |MetaFiles(files)|
              && HasImage(files, MetaFiles(files)[i]) && Slugify(MetaFiles(files)[i]) == k
              && Normalize(Images(files, MetaFiles(files)[i])[0], load(MetaFiles(files)[i]))
                 == Ok(comics[k])
              && forall j :: i < j < |MetaFiles(files)| && HasImage(files, MetaFiles(files)[j]) ==>
                   Slugify(MetaFiles(files)[j]) != k
  {
    var p := Processor(files, load);
    var listing := MetaFiles(files);
    FoldFailure(p, listing);
    FoldLastWins(p, listing, comics, k);
    var i :| LastStore(p, listing, k, i) && p(listing[i]).value == comics[k];
    assert p(listing[i]) == Process(files, load, listing[i]);
    LaterSlugsDiffer(files, load, i, k);
  }

  /**
   When no listed file raises, a file with an image stores under its slug,
   so the files after the last store under `k` that have an image all have
   other slugs.
   */
  lemma LaterSlugsDiffer(files: seq<string>, load: string -> Doc, i: nat, k: string)
    requires i < |MetaFiles(files)|
    requires forall j :: 0 <= j < |MetaFiles(files)| ==> !Processor(files, load)(MetaFiles(files)[j]).Raise?
    requires forall j :: i < j < |MetaFiles(files)| && Processor(files, load)(MetaFiles(files)[j]).Store? ==>
               Processor(files, load)(MetaFiles(files)[j]).key != k
    ensures forall j :: i < j < |MetaFiles(files)| && HasImage(files, MetaFiles(files)[j]) ==>
              Slugify(MetaFiles(files)[j]) != k
  {
    var listing := MetaFiles(files);
    forall j | i < j < |listing| && HasImage(files, listing[j]) ensures Slugify(listing[j]) != k {
      var out := Processor(files, load)(listing[j]);
      assert !out.Raise?;
      assert out == Process(files, load, listing[j]);
    }
  }

  /**
   A listed metadata file that no image matches contributes nothing: the
   result is the same with that file removed from the listing.
   */
  lemma NoImageNoEntry(files: seq<string>, load: string -> Doc, i: nat)
    requires i < |MetaFiles(files)| && !HasImage(files, MetaFiles(files)[i])
    ensures Fold(Processor(files, load), MetaFiles(files)[..i] + MetaFiles(files)[i + 1..]) == Collect(files, load)
  {
    FoldWithoutSkipped(Processor(files, load), MetaFiles(files), i);
  }

  /**
   Every record the loop keeps comes from a listed `comics/meta/X.yaml`: its key is `X`
   lowered, its image is the first path listed under `comics/images/X.`, its
   html is the file's `long` and its meta has no `long`.
   */
  lemma DiscoveredRecords(files: seq<string>, load: string -> Doc, comics: map<string, Record>)
    requires Collect(files, load) == Ok(comics)
    ensures forall k :: k in comics ==>
              exists f :: f in MetaFiles(files) && |MetaDir| + |MetaExt| <= |f|
                && k == Lower(Stem(f, MetaExt))
                && load(f).Mapping? && "long" in load(f).fields
                && HasImage(files, f) && comics[k].image == Images(files, f)[0]
                && ImagesDir + Stem(f, MetaExt) + "." <= comics[k].image
                && comics[k].html == load(f).fields["long"]
                && "long" !in comics[k].meta
  {
    var listing := MetaFiles(files);
    forall k | k in comics
      ensures exists f :: f in listing && |MetaDir| + |MetaExt| <= |f|
                && k == Lower(Stem(f, MetaExt))
                && load(f).Mapping? && "long" in load(f).fields
                && HasImage(files, f) && comics[k].image == Images(files, f)[0]
                && ImagesDir + Stem(f, MetaExt) + "." <= comics[k].image
                && comics[k].html == load(f).fields["long"]
                && "long" !in comics[k].meta
    {
      DiscoveredLastWins(files, load, comics, k);
      var i :| 0 <= i < |listing|
                && HasImage(files, listing[i]) && Slugify(listing[i]) == k
                && Normalize(Images(files, listing[i])[0], load(listing[i])) == Ok(comics[k]);
      RecordOfFile(files, load, listing[i], comics[k]);
    }
  }

  /** What a record built from one listed file with an image holds. */
  lemma RecordOfFile(files: seq<string>, load: string -> Doc, f: string, c: Record)
    requires f in MetaFiles(files) && HasImage(files, f)
    requires Normalize(Images(files, f)[0], load(f)) == Ok(c)
    ensures |MetaDir| + |MetaExt| <= |f| && Slugify(f) == Lower(Stem(f, MetaExt))
    ensures load(f).Mapping? && "long" in load(f).fields
    ensures c.image == Images(files, f)[0] && ImagesDir + Stem(f, MetaExt) + "." <= c.image
    ensures c.html == load(f).fields["long"] && "long" !in c.meta
  {
    NormalizeSpec(Images(files, f)[0], load(f));
    ListedFile(files, f);
    GlobStartsWithPrefix(files, ImagePrefix(f), "");
    assert Images(files, f)[0] in Images(files, f);
  }

  /**
   The listed file at `i` has an image, and no later listed file with an
   image has the same slug: its record is the one kept under that slug.
   */
  predicate LastOfSlug(files: seq<string>, i: nat)
    requires i < |MetaFiles(files)|
  {
    && HasImage(files, MetaFiles(files)[i])
    && forall j :: i < j < |MetaFiles(files)| && HasImage(files, MetaFiles(files)[j]) ==>
         Slugify(MetaFiles(files)[j]) != Slugify(MetaFiles(files)[i])
  }

  /** A loaded document whose record `json.dumps` can encode: `long` and every field but `long` and `date` can be. */
  predicate Dumpable(doc: Doc)
  {
    && doc.Mapping? && "long" in doc.fields && Encodable(doc.fields["long"])
    && forall k :: k in doc.fields && k != "long" && k != "date" ==> Encodable(doc.fields[k])
  }

  /**
   What `fetch_comics` does after the loop, in terms of the listed files: it
   returns the loop's dictionary exactly when the loop succeeds and the
   document of every file whose record is kept can be dumped. When it
   raises, it raises what the loop raised, or `TypeError` from the dump
   because some kept file's document cannot be dumped.
   */
  lemma DiscoverOutcome(files: seq<string>, load: string -> Doc)
    ensures Discover(files, load).Ok? <==>
              && Collect(files, load).Ok?
              && forall i :: 0 <= i < |MetaFiles(files)| && LastOfSlug(files, i) ==> Dumpable(load(MetaFiles(files)[i]))
    ensures Discover(files, load).Ok? ==> Discover(files, load) == Collect(files, load)
    ensures Discover(files, load).Err? ==>
              || Discover(files, load) == Collect(files, load)
              || (&& Collect(files, load).Ok? && Discover(files, load) == Err(NotSerializable)
                  && exists i :: 0 <= i < |MetaFiles(files)| && LastOfSlug(files, i) && !Dumpable(load(MetaFiles(files)[i])))
  {
    if Collect(files, load).Ok? {
      var comics := Collect(files, load).value;
      KeptDumpable(files, load, comics);
      DumpableKept(files, load, comics);
    }
  }

  /** When every record the loop kept can be dumped, so can the document of every kept file. */
  lemma KeptDumpable(files: seq<string>, load: string -> Doc, comics: map<string, Record>)
    requires Collect(files, load) == Ok(comics)
    ensures (forall k :: k in comics ==> Serializable(comics[k])) ==>
              forall i :: 0 <= i < |MetaFiles(files)| && LastOfSlug(files, i) ==> Dumpable(load(MetaFiles(files)[i]))
  {
    if forall k :: k in comics ==> Serializable(comics[k]) {
      var listing := MetaFiles(files);
      forall i | 0 <= i < |listing| && LastOfSlug(files, i) ensures Dumpable(load(listing[i])) {
        KeptRecord(files, load, comics, i);
        var image := Images(files, listing[i])[0];
        NormalizeSpec(image, load(listing[i]));
        SerializableRecord(image, load(listing[i]));
      }
    }
  }

  /** When the document of every kept file can be dumped, so can every record the loop kept. */
  lemma DumpableKept(files: seq<string>, load: string -> Doc, comics: map<string, Record>)
    requires Collect(files, load) == Ok(comics)
    ensures (forall i :: 0 <= i < |MetaFiles(files)| && LastOfSlug(files, i) ==> Dumpable(load(MetaFiles(files)[i]))) ==>
              forall k :: k in comics ==> Serializable(comics[k])
  {
    var listing := MetaFiles(files);
    if forall i :: 0 <= i < |listing| && LastOfSlug(files, i) ==> Dumpable(load(listing[i])) {
      forall k | k in comics ensures Serializable(comics[k]) {
        DiscoveredLastWins(files, load, comics, k);
        var i :| 0 <= i < |listing|
                  && HasImage(files, listing[i]) && Slugify(listing[i]) == k
                  && Normalize(Images(files, listing[i])[0], load(listing[i])) == Ok(comics[k])
                  && forall j :: i < j < |listing| && HasImage(files, listing[j]) ==> Slugify(listing[j]) != k;
        assert LastOfSlug(files, i);
        var image := Images(files, listing[i])[0];
        NormalizeSpec(image, load(listing[i]));
        SerializableRecord(image, load(listing[i]));
      }
    }
  }

  /**
   A record built from a complete document can be dumped exactly when its
   `long` and every field other than `long` and `date` can be: `date` always
   can, since it was rewritten as text.
   */
  lemma SerializableRecord(image: string, doc: Doc)
    requires Complete(doc)
    ensures Serializable(Normalize(image, doc).value) <==>
              Encodable(doc.fields["long"])
              && forall k :: k in doc.fields && k != "long" && k != "date" ==> Encodable(doc.fields[k])
  {
    NormalizeSpec(image, doc);
    var c := Normalize(image, doc).value;
    if Encodable(doc.fields["long"]) && forall k :: k in doc.fields && k != "long" && k != "date" ==> Encodable(doc.fields[k]) {
      forall k | k in c.meta ensures Encodable(c.meta[k]) {
        if k != "date" {
          assert c.meta[k] == doc.fields[k];
        }
      }
    }
  }

  /**
   A second date in a metadata file (say `updated: 2014-02-02`) makes
   `fetch_comics` raise, when that file's record is the one kept under its
   slug: only `date` is rewritten as text, and the dump cannot encode a date.
   */
  lemma ExtraDateRaises(files: seq<string>, load: string -> Doc, i: nat, key: string)
    requires i < |MetaFiles(files)| && LastOfSlug(files, i)
    requires Complete(load(MetaFiles(files)[i]))
    requires key in load(MetaFiles(files)[i]).fields && key != "long" && key != "date"
    requires load(MetaFiles(files)[i]).fields[key].Stamp?
    ensures Discover(files, load).Err?
  {
    var f := MetaFiles(files)[i];
    if Collect(files, load).Ok? {
      var comics := Collect(files, load).value;
      KeptRecord(files, load, comics, i);
      SerializableRecord(Images(files, f)[0], load(f));
      assert !Serializable(comics[Slugify(f)]);
    }
  }

  /** The record of a file with an image that no later file with an image shares a slug with is kept. */
  lemma KeptRecord(files: seq<string>, load: string -> Doc, comics: map<string, Record>, i: nat)
    requires Collect(files, load) == Ok(comics)
    requires i < |MetaFiles(files)| && LastOfSlug(files, i)
    ensures Slugify(MetaFiles(files)[i]) in comics
    ensures Normalize(Images(files, MetaFiles(files)[i])[0], load(MetaFiles(files)[i]))
            == Ok(comics[Slugify(MetaFiles(files)[i])])
  {
    var listing := MetaFiles(files);
    var slug := Slugify(listing[i]);
    DiscoveredKeys(files, load, comics);
    assert HasImage(files, listing[i]) && Slugify(listing[i]) == slug;
    DiscoveredLastWins(files, load, comics, slug);
    var last :| 0 <= last < |listing|
                && HasImage(files, listing[last]) && Slugify(listing[last]) == slug
                && Normalize(Images(files, listing[last])[0], load(listing[last])) == Ok(comics[slug])
                && forall j :: last < j < |listing| && HasImage(files, listing[j]) ==> Slugify(listing[j]) != slug;
    assert last == i;
  }
}
