# SobelFilter: output-name derivation

SobelFilter is a command-line tool. It loads a bitmap, runs a Sobel edge-detection
kernel on an OpenCL device, and saves the result. The only logic of its own is in
`main`, and this project models that part:

- **The argument check.** With no image path on the command line, `main` returns 1
  before it creates or uses the edge detector.
- **The output file name.** `main` takes the input path and keeps only the text
  after the last `/`. It cuts that text at its last `.` into a stem and an
  extension, and saves the image as `"sobel_" + stem + ".bmp"`. `\` is an
  ordinary character, so Windows-style paths are not split.

The project has three modules:

- `CppString` (CppString.dfy) models the two `std::string` operations the
  derivation uses. `RFind` is `rfind` for one character: it returns `At(i)`, or
  `NotFound` in place of `npos`. `Substr` is `substr(pos, count)`. It clamps the
  count to what remains of the string, and `OutOfRange` stands for the
  `std::out_of_range` exception thrown when `pos > size()`.
- `OutputPath` (OutputPath.dfy) defines the derivation on its own terms. It does
  not use `rfind`. `BaseName` is the longest tail of the path that has no `/`.
  `SplitExtension` splits a name at its last `.`. `OutputName` is
  `"sobel_" + stem + ".bmp"`. The lemmas in this module state the promised
  properties.
- `RunSobel` (RunSobel.dfy) models `main` in its own imperative form.
  `DeriveOutputName` updates the local strings step by step with `RFind` and
  `Substr`, as lines 42-69 do, and is proved to compute `OutputName`. `RunMain`
  performs the argument check, then creates the edge detector, makes the three
  image calls and lets the detector go out of scope, recording each step as a
  `Call` event. Whether the detector's construction throws is a parameter: it
  does when no OpenCL platform is found, because the constructor's
  `CreateContext(0)` then reads `Platforms.at(0)` of an empty list
  (SobelFilter/SobelFilter.cpp:147). `main` catches nothing, so the program then
  ends through `std::terminate` before any image is loaded.

Line 51 passes `substr` a count of `size() - LastSlash + 1`. That is two more
characters than remain after the slash. Because `substr` clamps the count, the
result is exactly the text after the slash (`SubstrToEnd`, used in
`DeriveOutputName`). The start position `LastSlash + 1` is never past the end, so
the `out_of_range` path is proved unreachable. The two unsigned `size_type`
subtractions cannot wrap: `size() - LastSlash` on line 51 because
`LastSlash < size()`, and `size() - Dot` on line 62 because `Dot < size()`.

The saved name keeps neither the directory nor the original extension:
`images/lena.png` is saved as `sobel_lena.bmp` (`ExampleUnixPath`).

## Model

| member | source | states |
|---|---|---|
| CppString.RFind | SobelFilter/RunSobel.cpp:46 | `rfind(c)` returns the index of an occurrence of `c` with no `c` after it, or `NotFound` exactly when `c` does not occur |
| CppString.Substr | SobelFilter/RunSobel.cpp:51 | `substr(pos, count)` throws exactly when `pos > size()`; otherwise it returns `min(count, size() - pos)` characters, copied from `pos` onwards |
| CppString.SubstrToEnd | SobelFilter/RunSobel.cpp:51 | a count that reaches or passes the end, such as the over-long count on line 51, yields exactly the suffix from `pos` |
| CppString.SubstrPrefix | SobelFilter/RunSobel.cpp:63 | `substr(0, n)` with `n <= size()` yields exactly the first `n` characters |
| OutputPath.BaseName | SobelFilter/RunSobel.cpp:46-52 | the file name kept after stripping the directory, defined as the longest tail of the path without `/`; `BaseNameParts` and `BaseNameSlashFree` pin it down as the text after the last `/` |
| OutputPath.SplitExtension | SobelFilter/RunSobel.cpp:55-64 | the file name cut at its last `.` into a stem and `Extension`; `SplitExtensionParts` pins it down |
| OutputPath.Stem | SobelFilter/RunSobel.cpp:63-69 | the value of `OutputPath` after line 63 that is written between `sobel_` and `.bmp` on line 69: the stem of the file name |
| OutputPath.OutputName | SobelFilter/RunSobel.cpp:42-69 | the output name starts with `sobel_` and ends with `.bmp`, the text between them has no `/`, and it is at most ten characters longer than the input path |
| OutputPath.StemIsSlashFree | SobelFilter/RunSobel.cpp:46-55 | the `.` search runs only on the file name, so the stem never contains `/` and is no longer than the path |
| OutputPath.BaseNameParts | SobelFilter/RunSobel.cpp:46-52 | every path is a directory part (empty, or ending in `/`) followed by its file name |
| OutputPath.BaseNameSlashFree | SobelFilter/RunSobel.cpp:46-52 | the file name kept after stripping the directory never contains `/` |
| OutputPath.BaseNameOfJoin | SobelFilter/RunSobel.cpp:44-52 | a name without `/` after any directory part is kept whole; with an empty directory part, a path without `/` is its own file name |
| OutputPath.AfterLastSlash | SobelFilter/RunSobel.cpp:46-52 | when `/` is at index `k` and nowhere after, the file name is exactly the text after index `k` |
| OutputPath.SplitExtensionParts | SobelFilter/RunSobel.cpp:55-64 | stem followed by extension gives back the name; the extension is empty exactly when the name has no `.`, and otherwise it starts with the last `.` and has no `.` after that |
| OutputPath.SplitOfJoin | SobelFilter/RunSobel.cpp:55-64 | `stem + "." + ext` with a dot-free `ext` splits into exactly that stem and `"." + ext` |
| OutputPath.SplitOfDotFree | SobelFilter/RunSobel.cpp:58-64 | a name with no `.` is all stem, and the extension stays empty |
| OutputPath.AtLastDot | SobelFilter/RunSobel.cpp:55-64 | when `.` is at index `k` and nowhere after, the stem is the text before `k` and the extension is the text from `k` to the end |
| OutputPath.OutputDropsExtension | SobelFilter/RunSobel.cpp:58-69 | `dir/stem.ext` is saved as `sobel_stem.bmp`, whatever the extension was |
| OutputPath.OutputKeepsDotFreeName | SobelFilter/RunSobel.cpp:58-69 | `dir/name` with no `.` in `name` is saved as `sobel_name.bmp` |
| OutputPath.BaseNameIgnoresDirectory | SobelFilter/RunSobel.cpp:46-52 | putting a directory part in front of a path does not change its file name |
| OutputPath.OutputIgnoresDirectory | SobelFilter/RunSobel.cpp:46-55 | putting a directory part in front of a path does not change the output name, whatever dots the directory holds |
| OutputPath.OutputOfTrailingSlash | SobelFilter/RunSobel.cpp:46-52 | a path ending in `/` gives an empty file name, and the output is `sobel_.bmp` |
| OutputPath.OutputLength | SobelFilter/RunSobel.cpp:69 | the output name is the stem's length plus ten characters long |
| OutputPath.ExampleUnixPath | SobelFilter/RunSobel.cpp:42-69 | `images/lena.png` becomes `sobel_lena.bmp` |
| OutputPath.ExampleDottedDirectory | SobelFilter/RunSobel.cpp:46-55 | `v1.2/photo` becomes `sobel_photo.bmp`: a dot in a directory name is not an extension |
| OutputPath.ExampleDoubleExtension | SobelFilter/RunSobel.cpp:55-63 | `archive.tar.gz` becomes `sobel_archive.tar.bmp`: only the last extension is dropped |
| OutputPath.ExampleWindowsPath | SobelFilter/RunSobel.cpp:44-52 | `C:\pics\cat.jpg` becomes `sobel_C:\pics\cat.bmp`: a backslash is not a separator |
| OutputPath.ExampleDotFile | SobelFilter/RunSobel.cpp:55-69 | `.bmp` becomes `sobel_.bmp`: the whole name is taken as the extension |
| RunSobel.DeriveOutputName | SobelFilter/RunSobel.cpp:42-69 | the step-by-step derivation with `rfind` and `substr` computes `OutputName`; the captured `Extension` is the text from the last `.` of the file name, stem plus `Extension` gives back the file name, and `Extension` is empty exactly when the file name has no `.` |
| RunSobel.RunMain | SobelFilter/RunSobel.cpp:11-74 | with fewer than two arguments the exit code is 1 and the edge detector is never created; with a path, a throwing construction (line 26) ends the program by termination after the creation attempt alone; otherwise the exit code is 0 whatever the image calls return, and the steps are create, load(path), run, save(`OutputName(path)`), destroy, in that order |

## Left out

- Console output (`std::cout`), which is I/O.
- The edge detector itself: its constructor, `LoadImage`, `Run`, `SaveImage` and destructor in SobelFilter/SobelFilter.cpp. These are calls into OpenCL and FreeImage. `RunMain` records them as events, takes whether the construction throws as a parameter, and takes the three image calls' status codes as parameters, which it ignores just as `main` does. SobelFilter/SobelFilter.cpp is not part of this model.
- RunSobel.RunMain: assumes that `LoadImage`, `Run` and `SaveImage` return normally (a failed allocation inside them, for one, is not modelled); only the construction at RunSobel.cpp:26 may throw.
- The Sobel convolution. It runs in an external device kernel, which is not part of this model.
- The `size_type` width: positions and counts are unbounded naturals. The subtractions on lines 51 and 62 cannot wrap, because `LastSlash < size()` and `Dot < size()`.
- `substr` and `rfind` are modelled only as far as the derivation uses them: `rfind` for one character searched from the end, and `substr` with an explicit count.
