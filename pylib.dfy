/**
 The handful of Python 2 library operations that comic discovery applies to
 path strings, with the semantics the standard library gives them:
 `str.replace(old, new, 1)`, negative slicing `s[:-n]`, `str.lower` on byte
 strings, `' '.join`, `os.path.splitext`, `os.path.basename` and `glob.glob`
 for a pattern with one `*`.
 */
module PyLib {

  // ---------------------------------------------------------------------------
  // Searching

  /** `s.rfind(c)`: the last index holding `c`, or -1 when `c` does not occur. */
  function LastIndexOf(s: string, c: char): (r: int)
    ensures -1 <= r < |s|
    ensures r >= 0 ==> s[r] == c
    ensures forall j :: r < j < |s| ==> s[j] != c
  {
    if s == [] then -1
    else if s[|s| - 1] == c then |s| - 1
    else LastIndexOf(s[..|s| - 1], c)
  }

  /** The last occurrence of a character is the only index with that character and none after it. */
  lemma LastIndexOfIs(s: string, c: char, k: int)
    requires 0 <= k < |s| && s[k] == c
    requires forall j :: k < j < |s| ==> s[j] != c
    ensures LastIndexOf(s, c) == k
  {
  }

  /** `pat` occurs in `s` starting at index `i`. */
  predicate OccursAt(s: string, pat: string, i: int)
  {
    0 <= i && i + |pat| <= |s| && s[i..i + |pat|] == pat
  }

  // ---------------------------------------------------------------------------
  // str.replace(pat, rep, 1) and s[:-n]

  /** `s.replace(pat, rep, 1)`. */
  function ReplaceFirst(s: string, pat: string, rep: string): string
    decreases |s|
  {
    if |s| < |pat| then s
    else if s[..|pat|] == pat then rep + s[|pat|..]
    else [s[0]] + ReplaceFirst(s[1..], pat, rep)
  }

  /** `pat` occurs in `s` at index `i` and at no earlier index. */
  predicate FirstOccurrence(s: string, pat: string, i: int)
  {
    OccursAt(s, pat, i) && forall j :: 0 <= j < i ==> !OccursAt(s, pat, j)
  }

  /** An occurrence of `pat` in `s[1..]` is one in `s`, one index later. */
  lemma OccursAtTail(s: string, pat: string, j: int)
    requires |s| >= 1
    ensures OccursAt(s[1..], pat, j) <==> j >= 0 && OccursAt(s, pat, j + 1)
  {
    if 0 <= j && j + |pat| <= |s| - 1 {
      assert s[1..][j..j + |pat|] == s[j + 1..j + 1 + |pat|];
    }
  }

  /** Without an occurrence of `pat`, `ReplaceFirst` returns `s` unchanged. */
  lemma {:induction false} ReplaceFirstAbsent(s: string, pat: string, rep: string)
    requires forall i :: 0 <= i <= |s| ==> !OccursAt(s, pat, i)
    ensures ReplaceFirst(s, pat, rep) == s
    decreases |s|
  {
    if |s| >= |pat| {
      assert !OccursAt(s, pat, 0);
      forall j | 0 <= j <= |s[1..]| ensures !OccursAt(s[1..], pat, j) {
        OccursAtTail(s, pat, j);
      }
      ReplaceFirstAbsent(s[1..], pat, rep);
      assert [s[0]] + s[1..] == s;
    }
  }

  /** A first occurrence at a positive index is, in the tail, a first occurrence one index earlier. */
  lemma FirstOccurrenceTail(s: string, pat: string, i: int)
    requires FirstOccurrence(s, pat, i) && i > 0
    ensures FirstOccurrence(s[1..], pat, i - 1)
  {
    OccursAtTail(s, pat, i - 1);
    forall j | 0 <= j < i - 1 ensures !OccursAt(s[1..], pat, j) {
      OccursAtTail(s, pat, j);
    }
  }

  /** Putting the first character back in front of a splice of the tail is the splice of the whole. */
  lemma ConsSplice(s: string, rep: string, i: int, n: nat)
    requires 0 < i && i + n <= |s|
    ensures [s[0]] + (s[1..][..i - 1] + rep + s[1..][i - 1 + n..]) == s[..i] + rep + s[i + n..]
  {
    assert s[1..][..i - 1] == s[1..i];
    assert s[1..][i - 1 + n..] == s[i + n..];
    assert [s[0]] + s[1..i] == s[..i];
  }

  /** `ReplaceFirst` replaces the leftmost occurrence of `pat` by `rep` and keeps the rest of `s`. */
  lemma {:induction false} ReplaceFirstAt(s: string, pat: string, rep: string, i: int)
    requires FirstOccurrence(s, pat, i)
    ensures ReplaceFirst(s, pat, rep) == s[..i] + rep + s[i + |pat|..]
    decreases |s|
  {
    if i > 0 {
      assert !OccursAt(s, pat, 0);
      assert s[..|pat|] != pat;
      FirstOccurrenceTail(s, pat, i);
      ReplaceFirstAt(s[1..], pat, rep, i - 1);
      assert ReplaceFirst(s, pat, rep) == [s[0]] + ReplaceFirst(s[1..], pat, rep);
      ConsSplice(s, rep, i, |pat|);
    }
  }

  /** `s[:-n]`: everything but the last `n` characters (empty when `n` is 0 or at least `|s|`). */
  function DropLast(s: string, n: nat): string
  {
    if n == 0 || |s| <= n then [] else s[..|s| - n]
  }

  /**
   Cutting `n > 0` characters from a string longer than `n` leaves exactly what
   came before its last `n` characters; cutting none, or at least all of them,
   leaves nothing (`s[:-0]` is `s[:0]`).
   */
  lemma DropLastOfConcat(a: string, b: string)
    ensures |a| >= 1 && |b| >= 1 ==> DropLast(a + b, |b|) == a
    ensures DropLast(a + b, 0) == [] && DropLast(a, |a| + |b|) == []
  {
    if |a| >= 1 && |b| >= 1 {
      assert (a + b)[..|a|] == a;
    }
  }

  // ---------------------------------------------------------------------------
  // str.lower and ' '.join

  /** `str.lower` on a Python 2 byte string lowers the ASCII letters only. */
  function LowerChar(c: char): char
  {
    if 'A' <= c <= 'Z' then (c as int + 32) as char else c
  }

  function Lower(s: string): (r: string)
    ensures |r| == |s|
  {
    seq(|s|, i requires 0 <= i < |s| => LowerChar(s[i]))
  }

  /** The lower-case ASCII alphabet, in order. */
  const Alphabet: string := "abcdefghijklmnopqrstuvwxyz"

  /** The `n`-th upper-case letter lowers to the `n`-th letter of the alphabet. */
  lemma LowerLetter(c: char)
    requires 'A' <= c <= 'Z'
    ensures LowerChar(c) == Alphabet[c as int - 'A' as int]
  {
    assert forall k :: 0 <= k < 26 ==> Alphabet[k] == ('a' as int + k) as char;
  }

  /**
   Lowering turns each upper-case ASCII letter into the letter of the same
   rank in the lower-case alphabet, keeps every other character, and so
   leaves no upper-case letter.
   */
  lemma LowerSpec(s: string)
    ensures forall i :: 0 <= i < |s| && 'A' <= s[i] <= 'Z' ==> Lower(s)[i] == Alphabet[s[i] as int - 'A' as int]
    ensures forall i :: 0 <= i < |s| && !('A' <= s[i] <= 'Z') ==> Lower(s)[i] == s[i]
    ensures forall i :: 0 <= i < |s| ==> !('A' <= Lower(s)[i] <= 'Z')
    ensures forall c :: c !in s && !('a' <= c <= 'z') ==> c !in Lower(s)
  {
    forall i | 0 <= i < |s| && 'A' <= s[i] <= 'Z' ensures Lower(s)[i] == Alphabet[s[i] as int - 'A' as int] {
      LowerLetter(s[i]);
    }
  }

  /** `' '.join(parts)`. */
  function Join(parts: seq<string>): (r: string)
    decreases |parts|
  {
    if parts == [] then []
    else if |parts| == 1 then parts[0]
    else parts[0] + " " + Join(parts[1..])
  }

  /** The inverse of `Join` for words without spaces: `s.split(' ')`. */
  function Split(s: string): (r: seq<string>)
    ensures |r| >= 1
    ensures forall k :: 0 <= k < |r| ==> ' ' !in r[k]
    decreases |s|
  {
    if ' ' !in s then [s]
    else
      var i := FirstIndexOf(s, ' ');
      [s[..i]] + Split(s[i + 1..])
  }

  /** `s.find(c)` for a character that occurs. */
  function FirstIndexOf(s: string, c: char): (i: nat)
    requires c in s
    ensures i < |s| && s[i] == c && c !in s[..i]
  {
    if s[0] == c then 0
    else
      var k := FirstIndexOf(s[1..], c);
      assert s[..k + 1] == [s[0]] + s[1..][..k];
      k + 1
  }

  /** The first occurrence of a character is the index holding it with none before. */
  lemma {:induction false} FirstIndexOfIs(s: string, c: char, k: nat)
    requires k < |s| && s[k] == c
    requires forall j :: 0 <= j < k ==> s[j] != c
    ensures FirstIndexOf(s, c) == k
  {
    if k > 0 {
      FirstIndexOfIs(s[1..], c, k - 1);
    }
  }

  /** Splitting at the first space yields the text before it, then the split of the rest. */
  lemma SplitAt(s: string, i: nat)
    requires i < |s| && s[i] == ' ' && ' ' !in s[..i]
    ensures Split(s) == [s[..i]] + Split(s[i + 1..])
  {
    forall j | 0 <= j < i ensures s[j] != ' ' {
      assert s[j] == s[..i][j];
    }
    FirstIndexOfIs(s, ' ', i);
  }

  /** Joining is undone by splitting when no part contains a space and there is at least one part. */
  lemma {:induction false} SplitJoin(parts: seq<string>)
    requires |parts| >= 1
    requires forall k :: 0 <= k < |parts| ==> ' ' !in parts[k]
    ensures Split(Join(parts)) == parts
    decreases |parts|
  {
    if |parts| == 1 {
    } else {
      var first := parts[0];
      var rest := Join(parts[1..]);
      var s := first + " " + rest;
      assert Join(parts) == s;
      assert s[..|first|] == first && s[|first|] == ' ' && s[|first| + 1..] == rest;
      SplitAt(s, |first|);
      SplitJoin(parts[1..]);
      assert [first] + parts[1..] == parts;
    }
  }

  /** Joining forgets where the parts ended: a value holding a space and the two words around it flatten alike. */
  lemma JoinNotInjective()
    ensures Join(["foo bar"]) == Join(["foo", "bar"])
    ensures Join(["foo", "bar"]) == "foo bar"
  {
  }

  // ---------------------------------------------------------------------------
  // os.path

  /** The path holds only dots between its last `/` and the character at `dot`. */
  predicate OnlyDotsBetween(p: string, sep: int, dot: int)
    requires -1 <= sep < dot <= |p|
  {
    forall i :: sep < i < dot ==> p[i] == '.'
  }

  /**
   `os.path.splitext(p)[0]` (POSIX): `p` without its last extension, where the
   extension starts at the last `.` of the final component, provided that
   component has some character other than `.` before it (`.bashrc` has none).
   */
  function SplitExtRoot(p: string): (root: string)
    ensures root <= p
  {
    var sep := LastIndexOf(p, '/');
    var dot := LastIndexOf(p, '.');
    if dot > sep && !OnlyDotsBetween(p, sep, dot) then p[..dot] else p
  }

  /** `os.path.basename(p)`: what follows the last `/`. */
  function Basename(p: string): (name: string)
    ensures '/' !in name
    ensures |name| <= |p|
  {
    p[LastIndexOf(p, '/') + 1..]
  }

  /**
   For a path `dir + stem + ext` in a directory, whose extension is one dot
   and a dot-free word, the base name without extension is exactly `stem`
   whenever `stem` is non-empty and does not start with a dot.
   */
  lemma StemOfPath(dir: string, stem: string, ext: string)
    requires dir != [] && dir[|dir| - 1] == '/'
    requires stem != [] && stem[0] != '.' && '/' !in stem
    requires |ext| >= 1 && ext[0] == '.' && '/' !in ext && '.' !in ext[1..]
    ensures Basename(SplitExtRoot(dir + stem + ext)) == stem
  {
    var p := dir + stem + ext;
    var sep, dot := |dir| - 1, |dir| + |stem|;
    assert p[sep] == '/';
    forall j | sep < j < |p| ensures p[j] != '/' {
      if j < dot { assert p[j] == stem[j - |dir|]; } else { assert p[j] == ext[j - dot]; }
    }
    LastIndexOfIs(p, '/', sep);
    assert p[dot] == '.';
    forall j | dot < j < |p| ensures p[j] != '.' {
      assert p[j] == ext[1..][j - dot - 1];
    }
    LastIndexOfIs(p, '.', dot);
    assert p[|dir|] == stem[0];
    assert !OnlyDotsBetween(p, sep, dot);
    var root := p[..dot];
    assert root == dir + stem;
    assert root[sep] == '/';
    forall j | sep < j < |root| ensures root[j] != '/' {
      assert root[j] == stem[j - |dir|];
    }
    LastIndexOfIs(root, '/', sep);
    assert root[sep + 1..] == stem;
  }

  // ---------------------------------------------------------------------------
  // glob.glob

  /** The pattern's last component starts with the `*` (the prefix names a directory, or nothing). */
  predicate StarLeads(prefix: string)
  {
    prefix == [] || prefix[|prefix| - 1] == '/'
  }

  /**
   `path` matches the pattern `prefix + "*" + suffix`, for a `suffix` without
   `/`: it is `prefix`, then any run of characters without `/`, then `suffix`.
   As in `glob.glob`, a pattern whose last component does not start with `.`
   skips hidden names; that matters only when the component starts with `*`.
   */
  predicate Matches(path: string, prefix: string, suffix: string)
  {
    && |prefix| + |suffix| <= |path|
    && path[..|prefix|] == prefix
    && path[|path| - |suffix|..] == suffix
    && '/' !in path[|prefix|..]
    && (StarLeads(prefix) ==> |path| == |prefix| || path[|prefix|] != '.')
  }

  /**
   `glob.glob(prefix + "*" + suffix)` over a filesystem given as the list of
   its paths, in the order the directory is listed.
   */
  function Glob(files: seq<string>, prefix: string, suffix: string): seq<string>
  {
    if files == [] then []
    else (if Matches(files[0], prefix, suffix) then [files[0]] else []) + Glob(files[1..], prefix, suffix)
  }

  /** A glob returns the listed paths that match the pattern, and no others. */
  lemma {:induction false} GlobMembers(files: seq<string>, prefix: string, suffix: string)
    ensures forall p :: p in Glob(files, prefix, suffix) <==> p in files && Matches(p, prefix, suffix)
    ensures |Glob(files, prefix, suffix)| <= |files|
  {
    if files != [] {
      GlobMembers(files[1..], prefix, suffix);
      assert files == [files[0]] + files[1..];
    }
  }

  /** The first path a glob returns is the earliest listed path that matches the pattern. */
  lemma {:induction false} GlobFirst(files: seq<string>, prefix: string, suffix: string)
    requires Glob(files, prefix, suffix) != []
    ensures exists j :: 0 <= j < |files| && Glob(files, prefix, suffix)[0] == files[j]
              && Matches(files[j], prefix, suffix)
              && forall i :: 0 <= i < j ==> !Matches(files[i], prefix, suffix)
  {
    assert files != [];
    if !Matches(files[0], prefix, suffix) {
      var rest := files[1..];
      assert Glob(files, prefix, suffix) == Glob(rest, prefix, suffix);
      GlobFirst(rest, prefix, suffix);
      var j :| 0 <= j < |rest| && Glob(rest, prefix, suffix)[0] == rest[j]
               && Matches(rest[j], prefix, suffix)
               && forall i :: 0 <= i < j ==> !Matches(rest[i], prefix, suffix);
      forall i | 0 <= i < j + 1 ensures !Matches(files[i], prefix, suffix) {
        if i > 0 {
          assert files[i] == rest[i - 1];
        }
      }
      assert files[j + 1] == rest[j];
    }
  }

  /** Every path a glob returns starts with the pattern's literal prefix. */
  lemma GlobStartsWithPrefix(files: seq<string>, prefix: string, suffix: string)
    ensures forall p :: p in Glob(files, prefix, suffix) ==> prefix <= p
  {
    GlobMembers(files, prefix, suffix);
    forall p | p in Glob(files, prefix, suffix) ensures prefix <= p {
      assert Matches(p, prefix, suffix);
      assert p[..|prefix|] == prefix;
    }
  }
}
