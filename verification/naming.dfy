/** The name of the page written for an input image: the input's file name
    with its final extension dropped and ".html" appended, placed in the
    output directory. */
module Naming {

  const OutputDir: string := "Ascii Art"
  const HtmlExt: string := ".html"

  /** No '.' and no '/' anywhere in s. */
  predicate NoDotOrSlash(s: string)
  {
    forall k :: 0 <= k < |s| ==> s[k] != '.' && s[k] != '/'
  }

  /** The extension search of a slash-separated path, resumed at position i
      after the characters from i on were found to be neither '.' nor '/':
      it walks left until it meets a '.' (the extension starts there and runs
      to the end) or a '/' or the start (no extension). */
  function ExtFrom(path: string, i: nat): (e: string)
    requires i <= |path|
    requires NoDotOrSlash(path[i..])
    ensures |e| <= |path| && e == path[|path| - |e|..]
    ensures e != [] ==> e[0] == '.' && NoDotOrSlash(e[1..])
    ensures e == [] ==> forall k :: 0 <= k < i && path[k] == '.' ==> exists j :: k < j < i && path[j] == '/'
    decreases i
  {
    if i == 0 then ""
    else if path[i - 1] == '/' then ""
    else if path[i - 1] == '.' then
      assert path[i - 1..][1..] == path[i..];
      path[i - 1..]
    else
      assert path[i - 1..] == [path[i - 1]] + path[i..];
      ExtFrom(path, i - 1)
  }

  /** The extension of a path: the suffix from the final '.' in its last
      slash-separated element, or empty when that element has no '.'. */
  function Ext(path: string): (e: string)
    ensures |e| <= |path| && e == path[|path| - |e|..]
    ensures e != [] ==> e[0] == '.' && NoDotOrSlash(e[1..])
    ensures e == [] ==> forall k :: 0 <= k < |path| && path[k] == '.' ==> exists j :: k < j < |path| && path[j] == '/'
  {
    ExtFrom(path, |path|)
  }

  /** s with the given suffix removed when it ends with it, and s unchanged otherwise. */
  function TrimSuffix(s: string, suffix: string): (r: string)
    ensures |suffix| <= |s| && s[|s| - |suffix|..] == suffix ==> r + suffix == s
    ensures !(|suffix| <= |s| && s[|s| - |suffix|..] == suffix) ==> r == s
  {
    if |suffix| <= |s| && s[|s| - |suffix|..] == suffix then s[..|s| - |suffix|] else s
  }

  /** The file name of the page written for an input file name: a stem and
      ".html", where the stem followed by the input's extension is the input. */
  function OutputName(name: string): (r: string)
    ensures |HtmlExt| <= |r| && r[|r| - |HtmlExt|..] == HtmlExt
    ensures r[..|r| - |HtmlExt|] + Ext(name) == name
  {
    TrimSuffix(name, Ext(name)) + HtmlExt
  }

  /** The full output path for a file name listed in the input directory
      (such names never contain '/', so joining is plain concatenation). The
      page lands directly inside the output directory. */
  function OutputPath(name: string): (r: string)
    requires '/' !in name
    ensures |OutputDir| + 1 <= |r| && r[..|OutputDir| + 1] == OutputDir + "/"
    ensures '/' !in r[|OutputDir| + 1..]
    ensures r[|OutputDir| + 1..] == OutputName(name)
  {
    OutputDir + "/" + OutputName(name)
  }

  /** A name with no '.' keeps all of itself and just gets ".html" appended. */
  lemma NoDotAppendsHtml(name: string)
    requires '.' !in name
    ensures OutputName(name) == name + HtmlExt
  {
  }

  /** Only the final extension is dropped: for any stem and any extension
      word without '.' or '/', "stem.word" becomes "stem.html". So
      "a.b.png" becomes "a.b.html". */
  lemma OnlyFinalExtensionDropped(stem: string, word: string)
    requires NoDotOrSlash(word)
    ensures Ext(stem + "." + word) == "." + word
    ensures OutputName(stem + "." + word) == stem + HtmlExt
  {
    var name := stem + "." + word;
    assert name[|stem| + 1..] == word;
    ExtAtFinalDot(name, |stem|);
    assert name[..|stem|] == stem;
  }

  /** When position k holds a '.' and nothing after it is '.' or '/', the
      extension is the suffix from k. */
  lemma ExtAtFinalDot(path: string, k: nat)
    requires k < |path| && path[k] == '.'
    requires NoDotOrSlash(path[k + 1..])
    ensures Ext(path) == path[k..]
  {
  }

  /** Converting twice changes nothing: the output name of an output name is itself. */
  lemma OutputNameIdempotent(name: string)
    ensures OutputName(OutputName(name)) == OutputName(name)
  {
    var stem := TrimSuffix(name, Ext(name));
    assert OutputName(name) == stem + "." + "html";
    OnlyFinalExtensionDropped(stem, "html");
  }

  /** Two inputs that differ only in their final extension are given the same
      output name, so the later one overwrites the earlier one's page. */
  lemma SameStemSameOutput(stem: string, word1: string, word2: string)
    requires NoDotOrSlash(word1) && NoDotOrSlash(word2)
    ensures OutputName(stem + "." + word1) == OutputName(stem + "." + word2)
  {
    OnlyFinalExtensionDropped(stem, word1);
    OnlyFinalExtensionDropped(stem, word2);
  }
}
