/**
  The name under which `encode` saves the carrier image: the input path with
  the text from its last '.' on removed, unless that '.' is the first
  character, followed by `_with_hidden_message.png`.
*/
module FileNames {

  /** What `encode` appends to the stem; the image is always saved as a PNG. */
  const Suffix: string := "_with_hidden_message.png"

  /** `s.lastIndexOf(c)`: the index of the last `c` in `s`, or -1 when `s` has none. */
  function LastIndexOf(s: string, c: char): (p: int)
    ensures -1 <= p < |s|
    ensures p >= 0 ==> s[p] == c
    ensures forall j :: p < j < |s| ==> s[j] != c
  {
    if |s| == 0 then -1
    else if s[|s| - 1] == c then |s| - 1
    else LastIndexOf(s[..|s| - 1], c)
  }

  /**
    The output name of `encode`. It always ends with the suffix. What comes
    before it is a prefix of the path: the whole path when no '.' follows its
    first character, and otherwise the path cut just before its last '.'.
  */
  function OutputFileName(imagePath: string): (name: string)
    ensures |name| >= |Suffix| && name[|name| - |Suffix|..] == Suffix
    ensures var stem := name[..|name| - |Suffix|];
      stem <= imagePath &&
      (stem == imagePath <==> forall j :: 0 < j < |imagePath| ==> imagePath[j] != '.') &&
      (stem != imagePath ==>
        0 < |stem| && imagePath[|stem|] == '.' && forall j :: |stem| < j < |imagePath| ==> imagePath[j] != '.')
  {
    var fileName := imagePath;
    var position := LastIndexOf(fileName, '.');
    var stem := if position > 0 then fileName[..position] else fileName;
    assert (stem + Suffix)[..|stem|] == stem;
    stem + Suffix
  }

  /** The contract of `LastIndexOf` determines its result. */
  lemma LastIndexOfIs(s: string, c: char, p: int)
    requires -1 <= p < |s| && (p >= 0 ==> s[p] == c)
    requires forall j :: p < j < |s| ==> s[j] != c
    ensures LastIndexOf(s, c) == p
  {
  }

  /** Only the last '.' counts. */
  lemma OutputFileNameLastDot()
    ensures OutputFileName("archive.tar.gz") == "archive.tar" + Suffix
  {
    LastIndexOfIs("archive.tar.gz", '.', 11);
  }

  /** A leading '.' is kept. */
  lemma OutputFileNameLeadingDot()
    ensures OutputFileName(".profile") == ".profile" + Suffix
  {
    LastIndexOfIs(".profile", '.', 0);
  }

  /** A '.' in a directory name is taken for an extension when the file name has none. */
  lemma OutputFileNameDirectoryDot()
    ensures OutputFileName("../cat") == "." + Suffix
  {
    LastIndexOfIs("../cat", '.', 1);
  }
}
