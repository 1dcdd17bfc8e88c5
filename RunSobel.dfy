/** The command-line driver: check that an image path was given, hand it to
    the edge detector, and save the result under a name derived from the path.
    The edge detector's own work (setup, loading, filtering on the device,
    saving, release) is opaque here: each call is recorded as an event, whether
    the setup throws is a parameter, and the status code each of the three
    image calls returns is a parameter that the driver, like `main`, never
    looks at. */
module RunSobel {
  import opened CppString
  import opened OutputPath

  /** The calls `main` makes on the edge detector, in order. */
  datatype Call =
    | CreateDetector
    | LoadImage(path: string)
    | RunFilter
    | SaveImage(fileName: string)
    | DestroyDetector

  /** The output-name derivation as `main` performs it: strip the directory
      with `rfind('/')` and `substr`, then split off the extension with
      `rfind('.')` and `substr`, and format "sobel_" + stem + ".bmp".
      Also returns the extension that `main` captures and never uses. */
  method DeriveOutputName(path: string) returns (outputName: string, extension: string)
    ensures outputName == OutputName(path)
    ensures outputName == Prefix + Stem(path) + Suffix
    ensures Stem(path) + extension == BaseName(path)
    ensures extension == [] <==> NoDot(BaseName(path))
    ensures extension != [] ==> extension[0] == '.' && NoDot(extension[1..])
  {
    var outputFile := path;
    var lastSlash := RFind(outputFile, '/');
    if lastSlash.At? {
      // size() - LastSlash + 1 is two past what remains; substr clamps it
      var count := |outputFile| - lastSlash.index + 1;
      assert Substr(outputFile, lastSlash.index + 1, count) == Extracted(BaseName(path)) by {
        SubstrToEnd(outputFile, lastSlash.index + 1, count);
        AfterLastSlash(outputFile, lastSlash.index);
      }
      outputFile := Substr(outputFile, lastSlash.index + 1, count).value;
    } else {
      assert outputFile == BaseName(path) by {
        assert [] + outputFile == outputFile;
        BaseNameOfJoin([], outputFile);
      }
    }

    var dot := RFind(outputFile, '.');
    extension := "";
    if dot.At? {
      assert Substr(outputFile, dot.index, |outputFile| - dot.index) == Extracted(SplitExtension(outputFile).ext)
          && Substr(outputFile, 0, dot.index) == Extracted(SplitExtension(outputFile).stem) by {
        SubstrToEnd(outputFile, dot.index, |outputFile| - dot.index);
        SubstrPrefix(outputFile, dot.index);
        AtLastDot(outputFile, dot.index);
      }
      extension := Substr(outputFile, dot.index, |outputFile| - dot.index).value;
      outputFile := Substr(outputFile, 0, dot.index).value;
    } else {
      assert SplitExtension(outputFile) == NameParts(outputFile, []) by { SplitOfDotFree(outputFile); }
    }
    assert outputFile == Stem(path);
    assert extension == SplitExtension(BaseName(path)).ext;

    SplitExtensionParts(BaseName(path));
    outputName := Prefix + outputFile + Suffix;
  }

  /** How the process ends: `main` returns an exit code, or an exception that
      nothing catches ends it through `std::terminate`. */
  datatype Outcome = Exited(code: int) | Terminated

  /** `main(argc, argv)` with `argv` as the sequence of arguments (so `argc` is
      its length). Without a path it returns 1 before the edge detector is
      created. Otherwise it constructs the detector; `setupThrows` says whether
      that construction throws (with no OpenCL platform, `Platforms.at(0)` in
      the constructor's `CreateContext(0)` does), which ends the program before
      any image is loaded. If construction returns, `main` loads, filters and
      saves, ignores the three status codes, destroys the detector when it
      goes out of scope, and falls off its end, which returns 0. */
  method RunMain(argv: seq<string>, setupThrows: bool, loadStatus: int, runStatus: int, saveStatus: int)
    returns (outcome: Outcome, calls: seq<Call>)
    ensures outcome == Exited(1) <==> |argv| < 2
    ensures outcome == Exited(0) <==> |argv| >= 2 && !setupThrows
    ensures outcome == Terminated <==> |argv| >= 2 && setupThrows
    ensures |argv| < 2 ==> calls == []
    ensures |argv| >= 2 && setupThrows ==> calls == [CreateDetector]
    ensures |argv| >= 2 && !setupThrows ==>
              calls == [CreateDetector, LoadImage(argv[1]), RunFilter,
                        SaveImage(OutputName(argv[1])), DestroyDetector]
  {
    if |argv| < 2 {
      return Exited(1), [];
    }
    var path := argv[1];
    calls := [CreateDetector];
    if setupThrows {
      return Terminated, calls;
    }
    calls := calls + [LoadImage(path)];
    calls := calls + [RunFilter];
    var outputName, extension := DeriveOutputName(path);
    calls := calls + [SaveImage(outputName)];
    calls := calls + [DestroyDetector];
    outcome := Exited(0);
  }
}
