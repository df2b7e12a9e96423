/**
 Name-level helpers of the lister: C-locale case folding, the suffix test
 `ends_with` and the archive test `is_archive_name`.

 Characters stand for the bytes of a file name; `tolower` and `toupper` in the
 C locale change only the letters 'A'..'Z' and 'a'..'z'.
 */
module Names {

  /** NAME_MAX on Linux: the longest name the archive test looks at. */
  const NAME_MAX: nat := 255

  /** The archive suffixes, in the order `is_archive_name` tests them. */
  const ArchiveSuffixes: seq<string> := [".tar", ".tar.gz", ".tgz", ".gz", ".zip"]

  predicate IsUpper(c: char) { 'A' <= c <= 'Z' }

  predicate IsLower(c: char) { 'a' <= c <= 'z' }

  /** `tolower` in the C locale. */
  function Lower(c: char): (r: char)
    ensures !IsUpper(r)
    ensures IsUpper(c) ==> IsLower(r) && Upper(r) == c
    ensures !IsUpper(c) ==> r == c
  {
    if IsUpper(c) then (c as int + 32) as char else c
  }

  /** `toupper` in the C locale. */
  function Upper(c: char): char {
    if IsLower(c) then (c as int - 32) as char else c
  }

  function LowerStr(s: string): (r: string)
    ensures |r| == |s|
  {
    seq(|s|, i requires 0 <= i < |s| => Lower(s[i]))
  }

  function UpperStr(s: string): (r: string)
    ensures |r| == |s|
  {
    seq(|s|, i requires 0 <= i < |s| => Upper(s[i]))
  }

  /** Folding after upper-casing is the same as folding: case is forgotten. */
  lemma LowerOfUpper(s: string)
    ensures LowerStr(UpperStr(s)) == LowerStr(s)
  {
    forall i | 0 <= i < |s|
      ensures LowerStr(UpperStr(s))[i] == LowerStr(s)[i]
    {
      var c := s[i];
      if IsLower(c) {
        assert Upper(c) as int == c as int - 32;
      }
    }
  }

  /** Folding a prefix is a prefix of the folded string. */
  lemma LowerStrPrefix(s: string, n: nat)
    requires n <= |s|
    ensures LowerStr(s[..n]) == LowerStr(s)[..n]
  {
  }

  /**
   `ends_with`: a suffix longer than the string never matches; otherwise the
   string ends with it exactly when it is some prefix followed by the suffix.
   */
  function EndsWith(s: string, suffix: string): (r: bool)
    ensures |suffix| > |s| ==> !r
    ensures r ==> s == s[..|s| - |suffix|] + suffix
    ensures forall p :: p + suffix == s ==> r
  {
    if |suffix| > |s| then false
    else s[|s| - |suffix|..] == suffix
  }

  /** The name as the archive test sees it: cut to NAME_MAX characters and folded. */
  function ArchiveKey(name: string): (k: string)
    ensures |k| <= NAME_MAX
    ensures |k| == if |name| > NAME_MAX then NAME_MAX else |name|
    ensures forall i :: 0 <= i < |k| ==> k[i] == Lower(name[i])
  {
    var n := if |name| > NAME_MAX then NAME_MAX else |name|;
    LowerStr(name[..n])
  }

  /** `is_archive_name`: the bounded, folded name ends with one of the archive suffixes. */
  predicate IsArchiveName(name: string)
    ensures IsArchiveName(name) <==>
      exists stem, sfx :: sfx in ArchiveSuffixes && stem + sfx == ArchiveKey(name)
  {
    var k := ArchiveKey(name);
    EndsWith(k, ".tar") || EndsWith(k, ".tar.gz") ||
    EndsWith(k, ".tgz") || EndsWith(k, ".gz") ||
    EndsWith(k, ".zip")
  }

  /** Two names that fold to the same string get the same archive verdict. */
  lemma ArchiveIgnoresCase(a: string, b: string)
    requires LowerStr(a) == LowerStr(b)
    ensures IsArchiveName(a) == IsArchiveName(b)
  {
    var n := if |a| > NAME_MAX then NAME_MAX else |a|;
    LowerStrPrefix(a, n);
    LowerStrPrefix(b, n);
    assert ArchiveKey(a) == ArchiveKey(b);
  }

  /** A name and its upper-cased variant always get the same archive verdict. */
  lemma ArchiveOfUpper(name: string)
    ensures IsArchiveName(UpperStr(name)) == IsArchiveName(name)
  {
    LowerOfUpper(name);
    ArchiveIgnoresCase(UpperStr(name), name);
  }

  /**
   For names within NAME_MAX, the archive test is exactly "the folded name ends
   with .tar, .tgz, .gz or .zip"; the `.tar.gz` test is subsumed by `.gz`.
   */
  lemma ArchiveShortName(name: string)
    requires |name| <= NAME_MAX
    ensures IsArchiveName(name) <==>
      exists sfx :: sfx in [".tar", ".tgz", ".gz", ".zip"] && EndsWith(LowerStr(name), sfx)
  {
    var k := LowerStr(name);
    assert name[..|name|] == name;
    assert ArchiveKey(name) == k;
    if EndsWith(k, ".tar.gz") {
      var tail := k[|k| - 3..];
      forall i | 0 <= i < 3 ensures tail[i] == ".gz"[i] {
        assert tail[i] == k[|k| - 7..][i + 4];
      }
      assert tail == ".gz";
    }
    if IsArchiveName(name) {
      if EndsWith(k, ".tar") { assert ".tar" in [".tar", ".tgz", ".gz", ".zip"]; }
      else if EndsWith(k, ".tgz") { assert ".tgz" in [".tar", ".tgz", ".gz", ".zip"]; }
      else if EndsWith(k, ".zip") { assert ".zip" in [".tar", ".tgz", ".gz", ".zip"]; }
      else { assert ".gz" in [".tar", ".tgz", ".gz", ".zip"]; }
    }
  }

  /** A name that is a stem followed by an archive suffix in any letter case is an archive. */
  lemma ArchiveAnyCaseSuffix(stem: string, sfx: string)
    requires |stem| + |sfx| <= NAME_MAX
    requires LowerStr(sfx) in ArchiveSuffixes
    ensures IsArchiveName(stem + sfx)
  {
    var name := stem + sfx;
    assert name[..|name|] == name;
    var k := LowerStr(name);
    assert ArchiveKey(name) == k;
    assert k == LowerStr(stem) + LowerStr(sfx);
  }

  /** `archive.TAR.GZ` is an archive. */
  lemma UpperCaseTarGzIsArchive()
    ensures IsArchiveName("archive.TAR.GZ")
  {
    var name := "archive.TAR.GZ";
    assert name[..|name|] == name;
    var k := ArchiveKey(name);
    assert k == LowerStr(name);
    assert k[11] == Lower('.') == '.';
    assert k[12] == Lower('G') == 'g';
    assert k[13] == Lower('Z') == 'z';
    assert k[|k| - 3..] == ".gz";
    assert EndsWith(k, ".gz");
  }

  /**
   A name longer than NAME_MAX is judged by its first NAME_MAX characters
   only: whatever follows them cannot change the verdict.
   */
  lemma LongNameJudgedByPrefix(name: string)
    requires |name| > NAME_MAX
    ensures IsArchiveName(name) == IsArchiveName(name[..NAME_MAX])
  {
    assert name[..NAME_MAX][..NAME_MAX] == name[..NAME_MAX];
  }
}
