/**
 * The names server.js gives to files: the collision-resistant name of a
 * reassembled upload (`generateUniqueFileName`) and where that file lives.
 */
module Naming {
  import opened PathNames

  /** Final artifacts are written to `final-uploads/<name>`. */
  const FinalUploadDir: string := "final-uploads/"

  function ArtifactPath(finalName: string): string {
    FinalUploadDir + finalName
  }

  /**
   * The text `crypto.randomBytes(8).toString('hex')` produces: sixteen
   * lower-case hexadecimal digits. The random bytes themselves are a
   * parameter of the model.
   */
  predicate IsHexSuffix(s: string) {
    |s| == 16 && forall k :: 0 <= k < |s| ==> s[k] in "0123456789abcdef"
  }

  /** `generateUniqueFileName`: `<stem>-<suffix><ext>` for the original name `<stem><ext>`. */
  function UniqueFileName(originalName: string, suffix: string): string {
    Stem(originalName) + "-" + suffix + Extname(originalName)
  }

  lemma HexSuffixIsPlain(suffix: string)
    requires IsHexSuffix(suffix)
    ensures '.' !in suffix && '/' !in suffix
  {
    forall k | 0 <= k < |suffix|
      ensures suffix[k] != '.' && suffix[k] != '/'
    {
      assert suffix[k] in "0123456789abcdef";
    }
  }

  /** A generated name holds no '/': it names a file directly inside its directory. */
  lemma UniqueFileNameIsPlain(originalName: string, suffix: string)
    requires IsHexSuffix(suffix)
    ensures '/' !in Stem(originalName) + "-" + suffix
    ensures '/' !in UniqueFileName(originalName, suffix)
  {
    HexSuffixIsPlain(suffix);
    var stem, ext := Stem(originalName), Extname(originalName);
    assert '/' !in stem && '/' !in ext;
    assert '/' !in "-";
  }

  /**
   * The generated name keeps the extension of the original name, and its
   * stem is the original stem followed by '-' and the suffix. The original
   * name must not end in the segment "..", whose extension Node reports as
   * empty although the generated name then has one.
   */
  lemma UniqueFileNameKeepsExtension(originalName: string, suffix: string)
    requires IsHexSuffix(suffix)
    requires FinalSegment(originalName) != ".."
    ensures Extname(UniqueFileName(originalName, suffix)) == Extname(originalName)
    ensures Stem(UniqueFileName(originalName, suffix)) == Stem(originalName) + "-" + suffix
  {
    if Extname(originalName) == "" {
      KeepsNoExtension(originalName, suffix);
    } else {
      KeepsExtension(originalName, suffix);
    }
  }

  lemma KeepsNoExtension(originalName: string, suffix: string)
    requires IsHexSuffix(suffix)
    requires FinalSegment(originalName) != ".." && Extname(originalName) == ""
    ensures Extname(UniqueFileName(originalName, suffix)) == ""
    ensures Stem(UniqueFileName(originalName, suffix)) == Stem(originalName) + "-" + suffix
  {
    HexSuffixIsPlain(suffix);
    UniqueFileNameIsPlain(originalName, suffix);
    var stem := Stem(originalName);
    assert UniqueFileName(originalName, suffix) == stem + ("-" + suffix);
    assert stem + ("-" + suffix) == stem + "-" + suffix;
    NoExtensionNoLateDot(originalName);
    StemWithoutExtension(stem, "-" + suffix);
  }

  lemma KeepsExtension(originalName: string, suffix: string)
    requires IsHexSuffix(suffix)
    requires Extname(originalName) != ""
    ensures Extname(UniqueFileName(originalName, suffix)) == Extname(originalName)
    ensures Stem(UniqueFileName(originalName, suffix)) == Stem(originalName) + "-" + suffix
  {
    HexSuffixIsPlain(suffix);
    UniqueFileNameIsPlain(originalName, suffix);
    var newStem := Stem(originalName) + "-" + suffix;
    assert |newStem| > 2;
    ExtnameOfParts(newStem, Extname(originalName));
  }

  /** A path without extension (and not ending in "..") has no '.' past the first character of its stem. */
  lemma NoExtensionNoLateDot(p: string)
    requires FinalSegment(p) != ".." && Extname(p) == ""
    ensures LastIndexOf(Stem(p), '.') <= 0
  {
    assert FinalSegment(p) == Stem(p) + "";
  }

  /** Appending a '.'-free, '/'-free tag to a name whose only '.' is in first position gives a name without extension. */
  lemma StemWithoutExtension(stem: string, tag: string)
    requires '/' !in stem && '/' !in tag && '.' !in tag && |tag| >= 2
    requires LastIndexOf(stem, '.') <= 0
    ensures Extname(stem + tag) == "" && Stem(stem + tag) == stem + tag
  {
    var p := stem + tag;
    LastIndexOfAppend(stem, tag, '.');
    forall k | 0 <= k < |p|
      ensures p[k] != '/'
    {
      if k < |stem| { assert p[k] == stem[k]; } else { assert p[k] == tag[k - |stem|]; }
    }
    assert p[|p| - 1] == tag[|tag| - 1] != '.';
    ExtnameOfPlainName(p);
  }

  /** The generated name is never the original name: it gains a '-' and loses any directory. */
  lemma UniqueFileNameDiffers(originalName: string, suffix: string)
    requires IsHexSuffix(suffix)
    ensures UniqueFileName(originalName, suffix) != originalName
  {
    UniqueFileNameIsPlain(originalName, suffix);
    var seg := FinalSegment(originalName);
    assert |UniqueFileName(originalName, suffix)| == |seg| + 1 + |suffix|;
    if '/' !in originalName {
      FinalSegmentOfPlainName(originalName);
    }
  }

  /** Two uploads of the same file get different names exactly when their suffixes differ. */
  lemma UniqueFileNameInjective(originalName: string, suffix1: string, suffix2: string)
    requires |suffix1| == |suffix2|
    ensures UniqueFileName(originalName, suffix1) == UniqueFileName(originalName, suffix2)
        <==> suffix1 == suffix2
  {
    var stem := Stem(originalName);
    var n1, n2 := UniqueFileName(originalName, suffix1), UniqueFileName(originalName, suffix2);
    if n1 == n2 {
      assert suffix1 == n1[|stem| + 1..|stem| + 1 + |suffix1|];
      assert suffix2 == n2[|stem| + 1..|stem| + 1 + |suffix2|];
    }
  }

  /** Uploading "movie.mp4" yields "movie-<suffix>.mp4". */
  lemma MovieExample(suffix: string)
    requires IsHexSuffix(suffix)
    ensures UniqueFileName("movie.mp4", suffix) == "movie-" + suffix + ".mp4"
    ensures Extname(UniqueFileName("movie.mp4", suffix)) == ".mp4"
    ensures UniqueFileName("movie.mp4", suffix) != "movie.mp4"
  {
    MovieNameParts();
    assert "movie" + "-" + suffix + ".mp4" == "movie-" + suffix + ".mp4";
    UniqueFileNameKeepsExtension("movie.mp4", suffix);
    UniqueFileNameDiffers("movie.mp4", suffix);
  }

  lemma MovieNameParts()
    ensures Stem("movie.mp4") == "movie" && Extname("movie.mp4") == ".mp4"
    ensures FinalSegment("movie.mp4") == "movie.mp4"
  {
    assert "movie" + ".mp4" == "movie.mp4";
    ExtnameOfParts("movie", ".mp4");
    FinalSegmentOfPlainName("movie.mp4");
  }
}
