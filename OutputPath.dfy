/** The name the edge-detected image is saved under, defined directly on the
    input path: keep the text after the last '/', split it at its last '.',
    and wrap the part before the dot as "sobel_" + stem + ".bmp".
    '\' is an ordinary character: Windows-style separators are not recognised. */
module OutputPath {

  const Prefix: string := "sobel_"
  const Suffix: string := ".bmp"

  predicate NoSlash(s: string)
  {
    '/' !in s
  }

  predicate NoDot(s: string)
  {
    '.' !in s
  }

  /** A directory part: empty, or ending in the separator '/'. */
  predicate IsDirectory(d: string)
  {
    d == [] || d[|d| - 1] == '/'
  }

  /** The file name: the longest '/'-free tail of the path. */
  function BaseName(path: string): string
  {
    if path == [] then []
    else if path[|path| - 1] == '/' then []
    else BaseName(path[..|path| - 1]) + [path[|path| - 1]]
  }

  /** A file name split at its last '.': `ext` starts at that dot, or is empty
      when there is no dot. */
  datatype NameParts = NameParts(stem: string, ext: string)

  function SplitExtension(name: string): NameParts
  {
    if name == [] then NameParts([], [])
    else if name[|name| - 1] == '.' then NameParts(name[..|name| - 1], ".")
    else
      var p := SplitExtension(name[..|name| - 1]);
      if p.ext == [] then NameParts(p.stem + [name[|name| - 1]], [])
      else NameParts(p.stem, p.ext + [name[|name| - 1]])
  }

  /** The part of the file name that survives into the output name. */
  function Stem(path: string): string
  {
    SplitExtension(BaseName(path)).stem
  }

  /** The output file name derived from the input path. */
  function OutputName(path: string): (r: string)
    ensures |r| >= |Prefix| + |Suffix| && r[..|Prefix|] == Prefix && r[|r| - |Suffix|..] == Suffix
    ensures NoSlash(r[|Prefix|..|r| - |Suffix|])
    ensures |r| <= |path| + |Prefix| + |Suffix|
  {
    StemIsSlashFree(path);
    var r := Prefix + Stem(path) + Suffix;
    assert r[..|Prefix|] == Prefix;
    assert r[|r| - |Suffix|..] == Suffix;
    assert r[|Prefix|..|r| - |Suffix|] == Stem(path);
    r
  }

  /** The stem comes from the file name alone, so it never holds a '/'. */
  lemma StemIsSlashFree(path: string)
    ensures NoSlash(Stem(path)) && |Stem(path)| <= |path|
  {
    var name := BaseName(path);
    var parts := SplitExtension(name);
    BaseNameParts(path);
    BaseNameSlashFree(path);
    SplitExtensionParts(name);
  }

  /** The base name splits the path into a directory part and the name. */
  lemma {:induction false} BaseNameParts(path: string)
    ensures |BaseName(path)| <= |path|
    ensures path == path[..|path| - |BaseName(path)|] + BaseName(path)
    ensures IsDirectory(path[..|path| - |BaseName(path)|])
  {
    if path == [] {
    } else if path[|path| - 1] == '/' {
      assert path[..|path| - 0] == path;
    } else {
      var init := path[..|path| - 1];
      BaseNameParts(init);
      var bi := BaseName(init);
      var k := |init| - |bi|;
      assert path[..|path| - |BaseName(path)|] == init[..k];
      assert path == init[..k] + bi + [path[|path| - 1]];
    }
  }

  /** The base name never holds a '/'. */
  lemma {:induction false} BaseNameSlashFree(path: string)
    ensures NoSlash(BaseName(path))
  {
    if path != [] && path[|path| - 1] != '/' {
      var init := path[..|path| - 1];
      BaseNameSlashFree(init);
    }
  }

  /** Whatever directory part precedes it, a '/'-free name is its own base name. */
  lemma {:induction false} BaseNameOfJoin(dir: string, name: string)
    requires IsDirectory(dir) && NoSlash(name)
    ensures BaseName(dir + name) == name
  {
    if name == [] {
      assert dir + name == dir;
    } else {
      var init, last := name[..|name| - 1], name[|name| - 1];
      assert name == init + [last];
      assert NoSlash(init) && last != '/';
      var path := dir + name;
      assert path[..|path| - 1] == dir + init && path[|path| - 1] == last;
      BaseNameOfJoin(dir, init);
      calc {
        BaseName(path);
        BaseName(dir + init) + [last];
        init + [last];
      }
    }
  }

  /** The base name is exactly the text after the last '/'. */
  lemma AfterLastSlash(path: string, k: nat)
    requires k < |path| && path[k] == '/'
    requires forall j :: k < j < |path| ==> path[j] != '/'
    ensures BaseName(path) == path[k + 1..]
  {
    assert path == path[..k + 1] + path[k + 1..];
    BaseNameOfJoin(path[..k + 1], path[k + 1..]);
  }

  /** Stem and extension put back together give the name; the extension is
      empty exactly when the name has no '.', and otherwise holds the last dot
      and nothing but dot-free text after it. */
  lemma {:induction false} SplitExtensionParts(name: string)
    ensures SplitExtension(name).stem + SplitExtension(name).ext == name
    ensures SplitExtension(name).ext == [] <==> NoDot(name)
    ensures SplitExtension(name).ext != [] ==>
              SplitExtension(name).ext[0] == '.' && NoDot(SplitExtension(name).ext[1..])
  {
    if name != [] {
      var init := name[..|name| - 1];
      SplitExtensionParts(init);
      assert name == init + [name[|name| - 1]];
      var p := SplitExtension(init);
      if name[|name| - 1] != '.' && p.ext != [] {
        assert (p.ext + [name[|name| - 1]])[1..] == p.ext[1..] + [name[|name| - 1]];
      }
    }
  }

  /** A stem followed by '.' and a dot-free extension splits back into exactly
      that stem and extension. */
  lemma {:induction false} SplitOfJoin(stem: string, ext: string)
    requires NoDot(ext)
    ensures SplitExtension(stem + "." + ext) == NameParts(stem, "." + ext)
  {
    if ext == [] {
      assert stem + "." + ext == stem + ".";
    } else {
      var init := ext[..|ext| - 1];
      var name := stem + "." + ext;
      assert name[..|name| - 1] == stem + "." + init;
      SplitOfJoin(stem, init);
      assert "." + ext == "." + init + [ext[|ext| - 1]];
    }
  }

  /** A dot-free name is all stem, with an empty extension. */
  lemma {:induction false} SplitOfDotFree(name: string)
    requires NoDot(name)
    ensures SplitExtension(name) == NameParts(name, [])
  {
    if name != [] {
      var init := name[..|name| - 1];
      assert name == init + [name[|name| - 1]];
      var last := name[|name| - 1];
      assert last != '.';
      SplitOfDotFree(init);
      calc {
        SplitExtension(name);
        NameParts(SplitExtension(init).stem + [last], []);
        NameParts(init + [last], []);
        { assert name == init + [last]; }
        NameParts(name, []);
      }
    }
  }

  /** The stem is the text before the last '.' and the extension the text from it. */
  lemma AtLastDot(name: string, k: nat)
    requires k < |name| && name[k] == '.'
    requires forall j :: k < j < |name| ==> name[j] != '.'
    ensures SplitExtension(name) == NameParts(name[..k], name[k..])
  {
    assert name == name[..k] + "." + name[k + 1..];
    SplitOfJoin(name[..k], name[k + 1..]);
  }

  /** The output name ignores the input's extension: "dir/stem.ext" is saved
      as "sobel_stem.bmp", whatever `ext` was. */
  lemma OutputDropsExtension(dir: string, stem: string, ext: string)
    requires IsDirectory(dir) && NoSlash(stem) && NoSlash(ext) && NoDot(ext)
    ensures OutputName(dir + stem + "." + ext) == Prefix + stem + Suffix
  {
    assert dir + stem + "." + ext == dir + (stem + "." + ext);
    BaseNameOfJoin(dir, stem + "." + ext);
    SplitOfJoin(stem, ext);
  }

  /** A name without a '.' is kept whole: "dir/name" is saved as "sobel_name.bmp". */
  lemma OutputKeepsDotFreeName(dir: string, name: string)
    requires IsDirectory(dir) && NoSlash(name) && NoDot(name)
    ensures OutputName(dir + name) == Prefix + name + Suffix
  {
    BaseNameOfJoin(dir, name);
    SplitOfDotFree(name);
  }

  /** A directory part in front of a path never changes its base name. */
  lemma {:induction false} BaseNameIgnoresDirectory(dir: string, path: string)
    requires IsDirectory(dir)
    ensures BaseName(dir + path) == BaseName(path)
  {
    if path == [] {
      assert dir + path == dir;
    } else {
      var init, last := path[..|path| - 1], path[|path| - 1];
      var joined := dir + path;
      assert joined[..|joined| - 1] == dir + init && joined[|joined| - 1] == last;
      if last != '/' {
        BaseNameIgnoresDirectory(dir, init);
      }
    }
  }

  /** The directory part never matters, however many dots it holds. */
  lemma OutputIgnoresDirectory(dir: string, path: string)
    requires IsDirectory(dir)
    ensures OutputName(dir + path) == OutputName(path)
  {
    BaseNameIgnoresDirectory(dir, path);
  }

  /** A path that ends in '/' names no file: the output is "sobel_.bmp". */
  lemma OutputOfTrailingSlash(path: string)
    requires |path| > 0 && path[|path| - 1] == '/'
    ensures OutputName(path) == Prefix + Suffix
  {
    assert path == path + [];
    OutputKeepsDotFreeName(path, []);
  }

  /** The output's length is the stem's length plus ten. */
  lemma OutputLength(path: string)
    ensures |OutputName(path)| == |Stem(path)| + 10
  {
  }

  /** A Unix path keeps only the file name, without its extension. */
  lemma ExampleUnixPath()
    ensures OutputName("images/lena.png") == "sobel_lena.bmp"
  {
    calc {
      OutputName("images/lena.png");
      { assert "images/lena.png" == "images/" + "lena" + "." + "png";
        OutputDropsExtension("images/", "lena", "png"); }
      Prefix + "lena" + Suffix;
      { assert Prefix + "lena" + Suffix == "sobel_lena.bmp"; }
      "sobel_lena.bmp";
    }
  }

  /** A dot in a directory name is not taken for an extension. */
  lemma ExampleDottedDirectory()
    ensures OutputName("v1.2/photo") == "sobel_photo.bmp"
  {
    calc {
      OutputName("v1.2/photo");
      { assert "v1.2/photo" == "v1.2/" + "photo";
        OutputKeepsDotFreeName("v1.2/", "photo"); }
      Prefix + "photo" + Suffix;
      { assert Prefix + "photo" + Suffix == "sobel_photo.bmp"; }
      "sobel_photo.bmp";
    }
  }

  /** Only the last extension is dropped. */
  lemma ExampleDoubleExtension()
    ensures OutputName("archive.tar.gz") == "sobel_archive.tar.bmp"
  {
    calc {
      OutputName("archive.tar.gz");
      { assert "archive.tar.gz" == "" + "archive.tar" + "." + "gz";
        OutputDropsExtension("", "archive.tar", "gz"); }
      Prefix + "archive.tar" + Suffix;
      { assert Prefix + "archive.tar" + Suffix == "sobel_archive.tar.bmp"; }
      "sobel_archive.tar.bmp";
    }
  }

  /** Backslashes are ordinary characters: a Windows path is all file name. */
  lemma ExampleWindowsPath()
    ensures OutputName("C:\\pics\\cat.jpg") == "sobel_C:\\pics\\cat.bmp"
  {
    calc {
      OutputName("C:\\pics\\cat.jpg");
      { assert "C:\\pics\\cat.jpg" == "" + "C:\\pics\\cat" + "." + "jpg";
        OutputDropsExtension("", "C:\\pics\\cat", "jpg"); }
      Prefix + "C:\\pics\\cat" + Suffix;
      { assert Prefix + "C:\\pics\\cat" + Suffix == "sobel_C:\\pics\\cat.bmp"; }
      "sobel_C:\\pics\\cat.bmp";
    }
  }

  /** A name that is all extension leaves an empty stem. */
  lemma ExampleDotFile()
    ensures OutputName(".bmp") == "sobel_.bmp"
  {
    calc {
      OutputName(".bmp");
      { assert ".bmp" == "" + "" + "." + "bmp";
        OutputDropsExtension("", "", "bmp"); }
      Prefix + "" + Suffix;
      { assert Prefix + "" + Suffix == "sobel_.bmp"; }
      "sobel_.bmp";
    }
  }
}
