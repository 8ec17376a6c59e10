# Comic discovery, modelled in Dafny

`comic` is a static site generator for webcomics. Each comic is a metadata file in
`comics/meta/` plus an image in `comics/images/` whose name starts with the metadata
file's stem and a dot. This project models how the generator **discovers** comics.
There are two versions of `fetch_comics`, and both are modelled:

- `comic/cli.py` reads YAML metadata (`X.yaml`). A record `{image, meta, html}` is keyed
  by the slug of the file name, which `slugify` computes. The record's `html` is the
  YAML field `long`. Its `meta` is the rest of the mapping, with `date` rewritten as ISO
  text. A file that has an image and is not well-formed YAML, is not a mapping, lacks
  `long` or `date`, or whose `date` is not a timestamp raises an exception that ends
  discovery. A file without an image is skipped before it is loaded. After the
  loop the dictionary is dumped as JSON. The dump raises when a record still holds a
  date, for example a second date field.
- `comic.py` reads Markdown metadata (`X.md`). A record `{meta, html}` is keyed by the
  path of the first matching image. Each `Meta` value, a list of lines, is joined with
  single spaces.

Modules:

- `PyLib` (`pylib.dfy`): the Python 2 behaviour both versions depend on.
  - `str.replace(old, new, 1)`, `s[:-n]`, ASCII `lower`, `' '.join`.
  - `os.path.splitext` and `basename`.
  - `glob` over a directory listing.
- `Layout` (`layout.dfy`): the `comics/meta/` and `comics/images/` layout, and the
  image prefix that both versions compute.
- `Discovery` (`discovery.dfy`): the discovery loop shared by both versions, generic
  over what one file does.
  - Each file is skipped, stored under a key, or raises.
  - The first exception ends the loop.
  - A later store under the same key overwrites an earlier one.
- `Cli` (`cli.dfy`) and `Comic` (`comic.dfy`): the two versions.
  - Each one has a loop method `FetchComics`, proved equal to the specification
    function `Discover`. In `Cli`, `Discover` is the loop (`Collect`) followed by
    the JSON dump (`Dump`).
  - Lemmas state what every discovered record is.

How the environment is modelled:

- The filesystem is the list of its paths in directory-listing order. Glob with
  `prefix*suffix` is an order-preserving filter over that list. A match may not cross
  a `/`. A name starting with `.` is not matched by a `*` that begins a file name.
- Parsing is a parameter of `Discover` and `FetchComics`:
  - `yaml.load` is `load`;
  - `markdown.convert` together with its `Meta` is `convert`.
- A YAML timestamp is represented by the text its `isoformat()` returns. Any other
  non-text value carries only whether `json.dumps` can encode it.

The ordering follows the code, not an idealised design. Neither version sorts what
`glob` returns. So both "the first image" and "the last file wins" refer to
directory-listing order.

## Model

| member | source | states |
|---|---|---|
| PyLib.ReplaceFirst | comic/cli.py:93 | `s.replace(pat, rep, 1)`; its meaning is stated by `ReplaceFirstAt` and `ReplaceFirstAbsent` |
| PyLib.ReplaceFirstAt | comic/cli.py:93 | `s.replace(pat, rep, 1)` replaces exactly the first occurrence of `pat`: the result is the text before it, then `rep`, then the text after it |
| PyLib.ReplaceFirstAbsent | comic/cli.py:93 | with no occurrence of `pat`, `replace` leaves the string unchanged |
| PyLib.DropLast | comic/cli.py:93 | `s[:-n]`; its meaning is stated by `DropLastOfConcat` |
| PyLib.DropLastOfConcat | comic/cli.py:93 | `s[:-n]` with `0 < n < len(s)` leaves exactly what came before the last `n` characters; `s[:-0]` and a cut of the whole string leave the empty string |
| PyLib.Lower | comic/cli.py:77 | `lower()` keeps the length of the string; its meaning is stated by `LowerSpec` |
| PyLib.LowerSpec | comic/cli.py:77 | `lower()` turns each upper-case ASCII letter into the letter of the same rank in the lower-case alphabet, keeps every other character, leaves no upper-case letter, and adds no character that was absent unless it is a lower-case letter |
| PyLib.SplitExtRoot | comic/cli.py:76 | `splitext(p)[0]` is a prefix of `p`; the exact cut is stated by `StemOfPath` |
| PyLib.Basename | comic/cli.py:77 | `basename` holds no `/` and is no longer than the path |
| PyLib.StemOfPath | comic/cli.py:76-77 | for `dir/stem.ext`, with a stem that does not start with a dot, `basename(splitext(p)[0])` is `stem` |
| PyLib.Join | comic.py:67 | `' '.join(v)`; its inverse is stated by `SplitJoin` |
| PyLib.SplitJoin | comic.py:67 | `' '.join(v)` loses nothing when no line holds a space: splitting at spaces gives back the lines |
| PyLib.JoinNotInjective | comic.py:67 | joining can merge distinct values: `["foo bar"]` and `["foo", "bar"]` both flatten to `"foo bar"` |
| PyLib.Glob | comic/cli.py:89 | `glob(prefix + '*' + suffix)` over a listing; its meaning is stated by `GlobMembers`, `GlobFirst` and `GlobStartsWithPrefix` |
| PyLib.GlobMembers | comic/cli.py:89 | a glob returns exactly the listed paths that match the pattern, and no more paths than are listed |
| PyLib.GlobFirst | comic/cli.py:103 | the first path a glob returns, `glob(...)[0]`, is the earliest listed path that matches the pattern |
| PyLib.GlobStartsWithPrefix | comic/cli.py:93 | every path a glob returns starts with the pattern's literal prefix |
| Layout.ListedShape | comic/cli.py:89 | a listed metadata path is `comics/meta/` + stem + extension, where the stem is non-empty, has no `/` and does not start with a dot |
| Layout.MetaToImages | comic/cli.py:93 | `f.replace('meta', 'images', 1)` on a path in `comics/meta/` gives the same name in `comics/images/` |
| Layout.ImagePrefixOf | comic/cli.py:93 | moving a metadata path to the images directory and cutting all of the extension except its dot gives `comics/images/` + stem + `.` |
| Discovery.FoldFailure | comic/cli.py:89-106 | discovery succeeds iff no listed file raises; otherwise it raises the exception of the first listed file that raises |
| Discovery.FoldErrSticks | comic/cli.py:97-100 | once a file has raised, the files after it change nothing |
| Discovery.FoldKeys | comic/cli.py:102 | the result's keys are exactly the keys some listed file stores under |
| Discovery.FoldLastWins | comic/cli.py:102 | the value under a key is the one stored by the last listed file that stores under that key |
| Discovery.FoldWithoutSkipped | comic/cli.py:93-94 | a skipped file can be removed from the listing without changing the result |
| Discovery.FoldSize | comic/cli.py:89-106 | there are no more entries than storing files, and no more storing files than listed files |
| Cli.Slugify | comic/cli.py:67-77 | `slugify`; its meaning is stated by `SlugShape`, `SlugExample` and `ListedFile` |
| Cli.SlugShape | comic/cli.py:67-77 | a slug has no `/`, and lowering it again changes nothing |
| Cli.SlugExample | comic/cli.py:67-77 | `comics/meta/Foo.yaml` has the slug `foo` |
| Cli.ImagePrefix | comic/cli.py:93 | the image prefix `f.replace('meta', 'images', 1)[:-4]`; `ListedFile` states its value |
| Cli.ListedFile | comic/cli.py:89-93 | a listed `X.yaml` has the slug `X` lowered, and looks for images under `comics/images/X.` |
| Cli.Normalize | comic/cli.py:97-106 | what the source does to one loaded document; its meaning is stated by `NormalizeSpec` |
| Cli.NormalizeSpec | comic/cli.py:96-106 | see the detail after this table |
| Cli.Process | comic/cli.py:90-106 | one iteration of the loop; `ListedOutcome` states what it does with a listed file |
| Cli.Collect | comic/cli.py:87-106 | the loop; its meaning is stated by `CollectFailure`, `DiscoveredKeys`, `DiscoveredLastWins` and `DiscoveredRecords` |
| Cli.Dump | comic/cli.py:109 | the JSON dump; `DiscoverOutcome`, `SerializableRecord` and `ExtraDateRaises` state when it raises |
| Cli.Discover | comic/cli.py:80-110 | what `fetch_comics` returns or raises; `DiscoverOutcome` states, in terms of the listed files, when it returns |
| Cli.LoadComic | comic/cli.py:97-100 | the in-place steps on the loaded mapping (read `long`, rewrite `date`, delete `long`) give the record `Normalize` specifies, or its exception |
| Cli.FetchComic | comic/cli.py:90-106 | one pass of the loop body skips, stores or raises exactly as `Process` says |
| Cli.FetchComics | comic/cli.py:80-110 | the loop over the listed YAML files returns exactly `Discover`: the dictionary, or the first exception |
| Cli.ListedOutcome | comic/cli.py:89-106 | a listed `X.yaml` is skipped iff no listed path matches `comics/images/X.*`. Otherwise its image is the earliest listed path that matches. It raises iff its document is not a mapping with `long` and a timestamp `date`. When it does not raise, it stores under `X` lowered the record that the image and the document normalise to |
| Cli.CollectFailure | comic/cli.py:89-106 | see the detail after this table |
| Cli.DiscoveredKeys | comic/cli.py:89-102 | the keys the loop stores under are exactly the slugs of the listed files that have an image |
| Cli.DiscoveredLastWins | comic/cli.py:102-106 | the record the loop keeps under a slug comes from the last listed file with an image and that slug |
| Cli.NoImageNoEntry | comic/cli.py:92-94 | a listed file that no image matches contributes nothing: removing it leaves the result unchanged |
| Cli.RecordOfFile | comic/cli.py:93-106 | a record built from a listed `X.yaml` has the first image under `comics/images/X.`, the file's `long` as html, and no `long` in its meta |
| Cli.DiscoveredRecords | comic/cli.py:89-106 | see the detail after this table |
| Cli.DiscoverOutcome | comic/cli.py:89-110 | `fetch_comics` returns the loop's dictionary iff the loop succeeds and every kept file's document has an encodable `long` and encodable fields other than `long` and `date`. A kept file is one with an image whose slug no later file with an image shares. When `fetch_comics` raises, it raises the loop's exception, or `TypeError` from the dump when some kept file's document cannot be encoded |
| Cli.SerializableRecord | comic/cli.py:97-109 | a record built from a complete document can be dumped iff its `long` and every field other than `long` and `date` can be encoded; `date` always can |
| Cli.KeptRecord | comic/cli.py:102-106 | a file with an image whose slug no later file with an image shares has its record kept under its slug |
| Cli.ExtraDateRaises | comic/cli.py:99-109 | a second date field (say `updated`) in the file whose record is kept makes `fetch_comics` raise, because only `date` is rewritten as text |
| Comic.ImagePrefix | comic.py:59 | the image prefix `f.replace('meta', 'images', 1)[:-2]`; `ListedFile` states its value |
| Comic.ListedFile | comic.py:56-59 | a listed `X.md` looks for images under `comics/images/X.` |
| Comic.Flatten | comic.py:65-67 | `Meta` with every value joined; its meaning is stated by `FlattenSpec` |
| Comic.FlattenSpec | comic.py:65-67 | flattening keeps the `Meta` keys and joins each value with spaces; when no line holds a space, the lines can be recovered |
| Comic.FlattenMeta | comic.py:65-67 | visiting the keys one by one gives a map with the same keys, each value being its lines joined with spaces |
| Comic.FetchComic | comic.py:58-74 | one pass of the loop body skips the file or stores its flattened record under its first image, exactly as `Process` says |
| Comic.FetchComics | comic.py:47-76 | the loop over the listed Markdown files returns exactly `Discover` |
| Comic.Process | comic.py:58-72 | one iteration of the loop; `ListedOutcome` states what it does with a listed file |
| Comic.Discover | comic.py:47-76 | what `fetch_comics` returns; its meaning is stated by `DiscoverNeverRaises`, `DiscoveredKeys`, `DiscoveredLastWins`, `DiscoveredRecords` and `DiscoveredSize` |
| Comic.ListedOutcome | comic.py:56-72 | a listed `X.md` is skipped iff no listed path matches `comics/images/X.*`. Otherwise it stores its flattened `Meta` and its html under the earliest listed path that matches. It never raises |
| Comic.DiscoverNeverRaises | comic.py:54-76 | Markdown discovery always returns a dictionary |
| Comic.DiscoveredKeys | comic.py:56-69 | the keys are exactly the first images of the listed files that have one |
| Comic.DiscoveredLastWins | comic.py:69-74 | see the detail after this table |
| Comic.NoImageNoEntry | comic.py:58-60 | a listed file that no image matches contributes nothing |
| Comic.DiscoveredSize | comic.py:54-76 | there are never more records than listed `.md` files |
| Comic.DiscoveredRecords | comic.py:56-72 | see the detail after this table |

Detail for the rows that say "see the detail after this table":

- **Cli.NormalizeSpec.** A record keeps the mapping with these changes:
  - `long` is removed and becomes the html;
  - `date` holds its ISO text;
  - every other field is unchanged.

  The lemma also states the errors, in the order the source meets them:
  - text that is not well-formed YAML makes `load` raise;
  - a document that is not a mapping raises `TypeError`;
  - a missing `long` raises `KeyError`, and is detected first among the fields;
  - a missing `date` raises `KeyError`;
  - a `date` that is not a timestamp raises `AttributeError`.

  A record exists exactly when none of these errors applies.
- **Cli.CollectFailure.** The loop succeeds iff every listed file with an image loads
  to a mapping with `long` and a timestamp `date`. Otherwise it raises the exception of
  the first such file that does not.
- **Cli.DiscoveredRecords.** Every record the loop keeps comes from a listed `comics/meta/X.yaml`:
  - its key is `X` lowered;
  - its image is the first path under `comics/images/X.`;
  - its html is the file's `long`;
  - its meta has no `long`.
- **Comic.DiscoveredLastWins.** The record under an image is built only from the
  conversion of the last listed file whose first image it is. A later file overwrites
  an earlier one, and no `Meta` carries over from another file.
- **Comic.DiscoveredRecords.** Every record comes from a listed `comics/meta/X.md`:
  - its key is an existing path starting with `comics/images/X.`;
  - its meta has the same keys as the file's `Meta`, each value joined with spaces;
  - its html is the file's html.

## Left out

- `fetch_globals`, `render_page`, `create`, `build`, `main` and the module's entry point
  are not part of discovery and are not modelled. This includes the loop at
  `comic/cli.py:182-183`, which overwrites each record's `image` with its slug.
- The JSON dump at `comic/cli.py:108-109` is modelled only for whether it raises a
  `TypeError` on a value JSON cannot encode. The printed text is not modelled.
  - `dumps` also raises `UnicodeDecodeError` on a byte string that is not UTF-8, such
    as a slug or image path from a non-UTF-8 file name. The model treats every string
    as encodable.
  - `dumps` raises `ValueError` on a value that contains itself. YAML anchors can build
    one. The model has no circular values.
  - In both cases the model returns `Ok` or `NotSerializable` where the source raises
    another exception.
- Reading files (`open(f, 'rb', 'utf-8').read()`) and the parsers are parameters of the
  model: `yaml.load`, `markdown.convert` (with its `Meta`), and `isoformat()`.
  - An I/O error or a UTF-8 decoding error while reading a file is not modelled.
    Comic.DiscoverNeverRaises therefore holds only for files that can be read and
    decoded.
  - A YAML parse error is modelled as one fault, without the parser's message.
- YAML mapping keys are modelled as strings only. A value that is neither text nor a
  timestamp is carried through opaquely, with a flag saying whether JSON can encode it.
- Cli.NormalizeSpec: the faults carry no message. Python's exceptions carry one, such
  as the missing key or the offending type; the model keeps only which exception it is.
- `glob` is modelled only for patterns of the form literal prefix, `*`, literal suffix.
  - A `*`, `?` or `[` inside a metadata file's stem is matched literally by the model.
    The globs at `comic/cli.py:93` and `comic.py:59` would read it as part of the
    pattern.
  - It does not model `glob`'s exact listing order. The order of the given list stands
    for `os.listdir`'s.
- Cli.FetchComics and Comic.FetchComics:
  - The source globs the image pattern twice per file. The model takes both globs over
    the same listing, so both return the same list; a directory changing between the
    two calls is not modelled.
  - Cli.FetchComic computes the image list once.
- PyLib.LowerSpec: `lower()` is modelled on ASCII letters only. This matches Python 2
  byte strings; locale-dependent or Unicode case mapping is not modelled.
- Comic.FlattenMeta:
  - The source rewrites the values of `Meta` in place while iterating. The model builds
    a new map key by key, in an arbitrary key order.
  - Aliasing with the Markdown instance's dictionary is not modelled.
- The module-level Markdown instance and `markdown.reset()` are not modelled as shared
  state. The model assumes each conversion fills a `Meta` of its own, so that records
  share no dictionary. That depends on the Markdown library, not on this source.
- Comic.DiscoveredLastWins and Comic.DiscoverNeverRaises rest on that library
  assumption. A library whose `convert` returns early on a blank file would leave the
  previous file's already-joined `Meta` in place. The loop would then join it again,
  character by character, and change the previous record. If the first file is blank,
  `Meta` might not exist at all. The model does not capture this.
- A `.md` or `.yaml` file whose stem is a prefix of another comic's image name
  (`X.md` and the image `X.Y.png`) matches that image too. The model keeps this
  behaviour, and the lemmas state only that the image starts with `comics/images/X.`.
