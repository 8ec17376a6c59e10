/**
 The directory layout both discovery versions rely on: metadata files live in
 `comics/meta/`, images in `comics/images/`, and an image belongs to a
 metadata file when its name starts with the metadata file's stem and a dot.
 */
module Layout {
  import opened PyLib

  const MetaDir: string := "comics/meta/"
  const ImagesDir: string := "comics/images/"

  /** The part of a listed metadata path between the directory and the extension. */
  function Stem(f: string, ext: string): string
    requires |MetaDir| + |ext| <= |f|
  {
    f[|MetaDir|..|f| - |ext|]
  }

  /**
   A path listed by the glob of `comics/meta/`, any name, then `ext`, for an extension that is a
   dot and a word, is the directory, a stem and the extension; the stem is
   not empty, has no `/` and does not start with a dot (glob hides dot files).
   */
  lemma {:induction false} ListedShape(files: seq<string>, ext: string, f: string)
    requires |ext| >= 1 && ext[0] == '.' && '/' !in ext
    requires f in Glob(files, MetaDir, ext)
    ensures |MetaDir| + |ext| <= |f|
    ensures f == MetaDir + Stem(f, ext) + ext
    ensures Stem(f, ext) != [] && Stem(f, ext)[0] != '.' && '/' !in Stem(f, ext)
  {
    GlobMembers(files, MetaDir, ext);
    assert Matches(f, MetaDir, ext);
    var stem := Stem(f, ext);
    assert f[..|MetaDir|] == MetaDir;
    assert f[|f| - |ext|..] == ext;
    assert f == f[..|MetaDir|] + stem + f[|f| - |ext|..];
    assert StarLeads(MetaDir);
    assert f[|MetaDir|] != '.';
    assert f[|f| - |ext|] == '.';
    assert stem[0] == f[|MetaDir|];
    forall j | 0 <= j < |stem| ensures stem[j] != '/' {
      assert stem[j] == f[|MetaDir|..][j];
    }
  }

  /** Within `comics/meta/`, the word `meta` first starts at index 7 (`comics/` holds no `meta`). */
  lemma MetaFirstAt7()
    ensures MetaDir[7..11] == "meta"
    ensures forall j :: 0 <= j < 7 ==> !OccursAt(MetaDir, "meta", j)
  {
    forall j | 0 <= j < 7 ensures !OccursAt(MetaDir, "meta", j) {
      assert MetaDir[j..j + 4][0] == MetaDir[j] && MetaDir[j..j + 4][1] == MetaDir[j + 1];
    }
  }

  /** `f.replace('meta', 'images', 1)` on a path in `comics/meta/` moves it to `comics/images/`. */
  lemma MetaToImages(x: string)
    ensures ReplaceFirst(MetaDir + x, "meta", "images") == ImagesDir + x
  {
    var s := MetaDir + x;
    MetaFirstAt7();
    assert s[7..11] == MetaDir[7..11];
    assert OccursAt(s, "meta", 7);
    forall j | 0 <= j < 7 ensures !OccursAt(s, "meta", j) {
      assert s[j..j + 4] == MetaDir[j..j + 4];
      assert !OccursAt(MetaDir, "meta", j);
    }
    assert FirstOccurrence(s, "meta", 7);
    ReplaceFirstAt(s, "meta", "images", 7);
    assert s[..7] == MetaDir[..7] == "comics/";
    assert s[11..] == "/" + x;
    assert "comics/" + "images" + ("/" + x) == ImagesDir + x;
  }

  /** Cutting all but the first character of the extension keeps the directory, the stem and the dot. */
  lemma CutExtension(dir: string, stem: string, ext: string)
    requires |ext| >= 2
    ensures DropLast(dir + (stem + ext), |ext| - 1) == dir + stem + [ext[0]]
  {
    var kept := dir + stem + [ext[0]];
    assert dir + (stem + ext) == kept + ext[1..];
    DropLastOfConcat(kept, ext[1..]);
  }

  /**
   The image prefix both versions compute: move a listed metadata path to the
   images directory and cut the extension but keep its dot, so that
   `comics/meta/X.yaml` cut by 4 and `comics/meta/X.md` cut by 2 both give
   `comics/images/X.`.
   */
  lemma ImagePrefixOf(stem: string, ext: string)
    requires |ext| >= 2
    ensures DropLast(ReplaceFirst(MetaDir + stem + ext, "meta", "images"), |ext| - 1)
            == ImagesDir + stem + [ext[0]]
  {
    var rest := stem + ext;
    assert MetaDir + stem + ext == MetaDir + rest;
    MetaToImages(rest);
    CutExtension(ImagesDir, stem, ext);
  }
}
