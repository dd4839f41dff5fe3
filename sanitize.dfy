/** TSV field sanitisation (build_triples.py, the `code` and `docstring`
    column rewrites): every tab, newline and carriage return becomes a
    space, because tab separates the fields and newline the records of the
    TSV files the retrieval model reads. */
module Sanitize {

  /** Tab, newline and carriage return: the characters TSV readers treat
      as delimiters. */
  predicate IsDelimiter(c: char) {
    c == '\t' || c == '\n' || c == '\r'
  }

  /** Python's `s.replace(target, replacement)` for one-character strings
      `target` and `replacement`. */
  function ReplaceChar(s: string, target: char, replacement: char): (r: string)
    ensures |r| == |s|
    ensures forall i :: 0 <= i < |s| ==> r[i] == (if s[i] == target then replacement else s[i])
  {
    if s == [] then []
    else [if s[0] == target then replacement else s[0]] + ReplaceChar(s[1..], target, replacement)
  }

  /** `x.replace("\t", " ").replace("\n", " ").replace("\r", " ")`. */
  function SanitizeText(s: string): (r: string)
    ensures |r| == |s|
    ensures forall i :: 0 <= i < |r| ==> !IsDelimiter(r[i])
  {
    ReplaceChar(ReplaceChar(ReplaceChar(s, '\t', ' '), '\n', ' '), '\r', ' ')
  }

  /** Sanitising keeps the length, turns each delimiter into a space and
      leaves every other character where it was; so no delimiter is left. */
  lemma SanitizeTextSpec(s: string)
    ensures |SanitizeText(s)| == |s|
    ensures forall i :: 0 <= i < |s| ==>
      SanitizeText(s)[i] == (if IsDelimiter(s[i]) then ' ' else s[i])
    ensures forall i :: 0 <= i < |s| ==> !IsDelimiter(SanitizeText(s)[i])
  {
  }

  /** A string with no delimiter is left as it is. */
  lemma SanitizeTextClean(s: string)
    requires forall i :: 0 <= i < |s| ==> !IsDelimiter(s[i])
    ensures SanitizeText(s) == s
  {
    SanitizeTextSpec(s);
  }

  /** Sanitising twice is sanitising once. */
  lemma SanitizeTextIdempotent(s: string)
    ensures SanitizeText(SanitizeText(s)) == SanitizeText(s)
  {
    SanitizeTextSpec(s);
    SanitizeTextClean(SanitizeText(s));
  }
}
