/**
 * Table names from file paths, and the file list the importer walks.
 *
 * A file's table name is the root that splitext gives for its basename,
 * under POSIX path rules: everything after the last '/', without its final
 * extension, where dots that only lead the name do not start an extension.
 * The files are those matched by the recursive pattern root/**/*.csv; which
 * files exist is a parameter (a list of candidate paths), not a directory walk.
 */
module Paths {

  /** The position of the last c in s, or -1 when s has none. */
  function LastIndexOf(s: string, c: char): (r: int)
    ensures -1 <= r < |s|
    ensures r >= 0 ==> s[r] == c
    ensures forall k :: r < k < |s| ==> s[k] != c
    decreases |s|
  {
    if s == [] then -1
    else if s[|s| - 1] == c then |s| - 1
    else LastIndexOf(s[..|s| - 1], c)
  }

  /** os.path.basename: the final path component, that is the longest
      suffix of p without a '/': it is all of p or follows a '/'. */
  function Basename(p: string): (b: string)
    ensures '/' !in b && |b| <= |p| && p[|p| - |b|..] == b
    ensures |b| == |p| || p[|p| - |b| - 1] == '/'
  {
    p[LastIndexOf(p, '/') + 1..]
  }

  /** Some character of s in [lo, hi) is not a dot. */
  predicate HasNonDot(s: string, lo: int, hi: int)
    requires 0 <= lo <= hi <= |s|
  {
    exists k :: lo <= k < hi && s[k] != '.'
  }

  /** os.path.splitext: a root and an extension, the extension running from
      the last dot of the final component, unless that component has only
      dots before its last dot. */
  function SplitExt(p: string): (parts: (string, string))
    ensures parts.0 + parts.1 == p
  {
    var sepIndex := LastIndexOf(p, '/');
    var dotIndex := LastIndexOf(p, '.');
    if dotIndex > sepIndex && HasNonDot(p, sepIndex + 1, dotIndex) then
      (p[..dotIndex], p[dotIndex..])
    else
      (p, [])
  }

  /** Root and extension give back the path. The extension is empty or a dot
      followed by no dot and no '/'; a non-empty extension leaves a character
      other than a dot in the root's final component, so ".csv" has none. */
  lemma SplitExtRoundTrip(p: string)
    ensures var (root, ext) := SplitExt(p);
      root + ext == p &&
      (ext == [] || (ext[0] == '.' && '.' !in ext[1..] && '/' !in ext)) &&
      (ext != [] ==> exists k :: 0 <= k < |root| && root[k] != '.' && '/' !in root[k..])
  {
    var sepIndex := LastIndexOf(p, '/');
    var dotIndex := LastIndexOf(p, '.');
    if dotIndex > sepIndex && HasNonDot(p, sepIndex + 1, dotIndex) {
      assert SplitExt(p) == (p[..dotIndex], p[dotIndex..]);
      var k :| sepIndex + 1 <= k < dotIndex && p[k] != '.';
      assert p[..dotIndex][k..] == p[k..dotIndex];
    }
  }

  /** Conversely, the extension is empty only when no dot follows a character
      of the final component other than a dot: "a.b" always splits, while
      "abc", ".bashrc" and "..." do not. */
  lemma SplitExtEmptyOnlyWithoutDot(p: string)
    requires SplitExt(p).1 == []
    ensures forall i, j :: 0 <= i < j < |p| && p[i] != '.' && '/' !in p[i..] ==> p[j] != '.'
  {
    var sepIndex := LastIndexOf(p, '/');
    var dotIndex := LastIndexOf(p, '.');
    forall i, j | 0 <= i < j < |p| && p[i] != '.' && '/' !in p[i..] ensures p[j] != '.' {
      assert sepIndex < i;
      if dotIndex > sepIndex {
        assert !HasNonDot(p, sepIndex + 1, dotIndex);
      }
    }
  }

  /** The destination table of a CSV file: a prefix of the file's final component. */
  function TableName(path: string): (name: string)
    ensures name <= Basename(path)
  {
    SplitExt(Basename(path)).0
  }

  /** A table name never contains a '/'. */
  lemma TableNameHasNoSlash(path: string)
    ensures '/' !in TableName(path)
  {
    var b := Basename(path);
    assert SplitExt(b).0 <= b;
  }

  const CsvSuffix := ".csv"

  predicate EndsWith(s: string, suffix: string) {
    |suffix| <= |s| && s[|s| - |suffix|..] == suffix
  }

  /** No component of rel begins with a dot: glob's '*' and '**' do not match hidden names. */
  predicate NoHiddenComponent(rel: string) {
    forall k :: 0 <= k < |rel| && rel[k] == '.' ==> k > 0 && rel[k - 1] != '/'
  }

  /** p is matched by the pattern root/**/*.csv: it lies under root, no
      component below root is hidden, and its final component ends in ".csv";
      so the whole path ends in ".csv" too. */
  predicate MatchesCsvGlob(root: string, p: string)
    ensures MatchesCsvGlob(root, p) ==> EndsWith(p, CsvSuffix)
  {
    |root| < |p| && p[..|root|] == root && p[|root|] == '/' &&
    NoHiddenComponent(p[|root| + 1..]) && EndsWith(Basename(p), CsvSuffix)
  }

  /** list_all_csv_file_paths over a given list of existing paths: the paths
      the pattern matches. */
  function ListCsvFilePaths(root: string, paths: seq<string>): (found: seq<string>)
    ensures |found| <= |paths|
    ensures forall p :: p in found <==> p in paths && MatchesCsvGlob(root, p)
  {
    if paths == [] then []
    else if MatchesCsvGlob(root, paths[0]) then [paths[0]] + ListCsvFilePaths(root, paths[1..])
    else ListCsvFilePaths(root, paths[1..])
  }

  lemma LastIndexOfIs(s: string, c: char, i: int)
    requires -1 <= i < |s| && (i >= 0 ==> s[i] == c)
    requires forall k :: i < k < |s| ==> s[k] != c
    ensures LastIndexOf(s, c) == i
  {
  }

  /** X.csv, where X is non-empty, has no '/' and does not start with a dot,
      splits into root X and extension ".csv". */
  lemma SplitExtOfCsvName(b: string, x: string)
    requires b == x + CsvSuffix && x != [] && x[0] != '.' && '/' !in x
    ensures SplitExt(b) == (x, CsvSuffix)
  {
    var n := |x|;
    assert b[n..] == CsvSuffix;
    LastIndexOfIs(b, '.', n);
    LastIndexOfIs(b, '/', -1);
    assert HasNonDot(b, 0, n) by {
      assert b[0] == x[0];
    }
    assert b[..n] == x;
  }

  /** A file whose final component is X.csv, where X is non-empty and does not
      start with a dot, names table X. */
  lemma TableNameOfCsvBasename(path: string, x: string)
    requires Basename(path) == x + CsvSuffix && x != [] && x[0] != '.'
    ensures TableName(path) == x
  {
    assert x <= Basename(path);
    SplitExtOfCsvName(Basename(path), x);
  }

  /** Every file the pattern finds names a non-empty table without a '/',
      and that name followed by ".csv" is the file's final component. */
  lemma CsvPathTableName(root: string, p: string)
    requires MatchesCsvGlob(root, p)
    ensures TableName(p) != [] && '/' !in TableName(p)
    ensures TableName(p) + CsvSuffix == Basename(p)
  {
    TableNameHasNoSlash(p);
    var b := Basename(p);
    var j := |p| - |b|;
    assert j > |root|;
    var rel := p[|root| + 1..];
    assert rel[j - |root| - 1] == p[j] == b[0];
    assert b[0] != '.' by {
      if j - |root| - 1 > 0 {
        assert rel[j - |root| - 2] == p[j - 1] == '/';
      }
    }
    var x := b[..|b| - 4];
    assert b == x + CsvSuffix;
    assert x != [];
    TableNameOfCsvBasename(p, x);
  }
}
