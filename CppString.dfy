/** The two `std::string` members that the output-name derivation relies on:
    `rfind` for a single character and `substr` with the standard clamping rule.
    A `std::string` is a sequence of `char`, one `char` per byte, so lengths
    are byte counts ('/' and '.' are single bytes); a `size_type` position is
    a `nat`. */
module CppString {

  /** The result of `rfind`: `NotFound` plays the role of `std::string::npos`. */
  datatype Position = NotFound | At(index: nat)

  /** The result of `substr`: the extracted text, or the `std::out_of_range`
      exception that is thrown when the start position lies past the end. */
  datatype Substring = Extracted(value: string) | OutOfRange

  function Min(a: nat, b: nat): nat
  {
    if a <= b then a else b
  }

  /** `s.rfind(c)`: the index of the last occurrence of `c` in `s`, or `NotFound`. */
  function RFind(s: string, c: char): (r: Position)
    ensures r.At? ==> r.index < |s| && s[r.index] == c
    ensures r.At? ==> forall j :: r.index < j < |s| ==> s[j] != c
    ensures r.NotFound? <==> c !in s
  {
    if s == [] then NotFound
    else if s[|s| - 1] == c then At(|s| - 1)
    else RFind(s[..|s| - 1], c)
  }

  /** `s.substr(pos, count)`: at most `count` characters starting at `pos`; the
      count is clamped to what remains, and a start past the end throws. */
  function Substr(s: string, pos: nat, count: nat): (r: Substring)
    ensures r.OutOfRange? <==> pos > |s|
    ensures r.Extracted? ==> |r.value| == Min(count, |s| - pos)
    ensures r.Extracted? ==> forall i :: 0 <= i < |r.value| ==> r.value[i] == s[pos + i]
  {
    if pos > |s| then OutOfRange
    else Extracted(s[pos..pos + Min(count, |s| - pos)])
  }

  /** A count that reaches the end of the string (or beyond) yields exactly the suffix. */
  lemma SubstrToEnd(s: string, pos: nat, count: nat)
    requires pos <= |s| && count >= |s| - pos
    ensures Substr(s, pos, count) == Extracted(s[pos..])
  {
  }

  /** A prefix request `substr(0, n)` with `n <= size()` yields exactly the prefix. */
  lemma SubstrPrefix(s: string, n: nat)
    requires n <= |s|
    ensures Substr(s, 0, n) == Extracted(s[..n])
  {
  }
}
