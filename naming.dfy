/** Name arithmetic of the batch renamer: where the last dot of a file name
    is, the base name and the original extension of a selected file, the
    extension the user typed with one leading dot removed, and the new name
    built from a base name and that cleaned extension. Everything here is a
    pure function of strings. */
module Naming {

  const Dot: char := '.'

  /** `s.lastIndexOf('.')`: the index of the last dot of `s`, or -1 when `s`
      has none. */
  function LastDot(s: string): (r: int)
    ensures -1 <= r < |s|
    ensures r == -1 <==> Dot !in s
    ensures 0 <= r ==> s[r] == Dot && Dot !in s[r + 1..]
  {
    if s == [] then -1
    else if s[|s| - 1] == Dot then |s| - 1
    else
      var init := s[..|s| - 1];
      assert s == init + [s[|s| - 1]];
      var k := LastDot(init);
      assert 0 <= k ==> s[k + 1..] == init[k + 1..] + [s[|s| - 1]];
      k
  }

  /** `name.split('.').pop()`: the last piece of the name cut at every dot,
      which is the text after the last dot, or the whole name when it has
      no dot. */
  function OriginalExtension(name: string): (r: string)
    ensures Dot !in r
    ensures |r| <= |name| && r == name[|name| - |r|..]
    ensures Dot !in name ==> r == name
    ensures Dot in name ==> |r| < |name| && name[|name| - |r| - 1] == Dot
  {
    name[LastDot(name) + 1..]
  }

  /** `name.substring(0, name.lastIndexOf('.')) || name`: the text before the
      last dot, or the whole name when that text is empty. `substring` clamps
      the end index -1 (no dot) to 0, so a name without a dot, and a name
      whose only dot is its first character, both keep their full name. */
  function BaseName(name: string): (r: string)
    ensures r <= name
    ensures name != [] ==> r != []
    ensures r == name <==> forall i :: 0 < i < |name| ==> name[i] != Dot
    ensures r != name ==> name == r + [Dot] + OriginalExtension(name)
  {
    var k := LastDot(name);
    var before := if k < 0 then "" else name[..k];
    if before != "" then
      assert name == before + [Dot] + name[k + 1..];
      before
    else
      assert forall i :: 0 < i < |name| ==> name[i] != Dot by {
        if k == 0 {
          forall i | 0 < i < |name| ensures name[i] != Dot {
            assert name[i] == name[k + 1..][i - 1];
          }
        }
      }
      name
  }

  /** `ext.replace(/^\./, '')`: the typed extension with at most one leading
      dot removed. */
  function CleanExtension(ext: string): (r: string)
    ensures ext != [] && ext[0] == Dot ==> [Dot] + r == ext
    ensures !(ext != [] && ext[0] == Dot) ==> r == ext
  {
    if ext != [] && ext[0] == Dot then ext[1..] else ext
  }

  /** The new name of a file: the base name, then a dot and the cleaned
      extension when that extension is not empty. */
  function NewName(baseName: string, cleanExt: string): (r: string)
    ensures baseName <= r
    ensures r == baseName <==> cleanExt == ""
    ensures cleanExt != "" ==> r[|baseName|] == Dot && r[|baseName| + 1..] == cleanExt
  {
    if cleanExt != "" then baseName + [Dot] + cleanExt else baseName
  }

  /** A dot followed by dot-free text is the last dot. */
  lemma {:induction false} LastDotBeforeTail(s: string, t: string)
    requires Dot !in t
    ensures LastDot(s + [Dot] + t) == |s|
  {
    if t != [] {
      var u := s + [Dot] + t;
      assert u[..|u| - 1] == s + [Dot] + t[..|t| - 1];
      assert t[|t| - 1] in t;
      LastDotBeforeTail(s, t[..|t| - 1]);
    }
  }

  /** Taking a new name apart again gives back the base name and the
      extension it was built from, provided the base name is not empty and
      the extension holds no dot. */
  lemma NewNameRoundTrip(baseName: string, cleanExt: string)
    requires baseName != [] && cleanExt != [] && Dot !in cleanExt
    ensures BaseName(NewName(baseName, cleanExt)) == baseName
    ensures OriginalExtension(NewName(baseName, cleanExt)) == cleanExt
  {
    LastDotBeforeTail(baseName, cleanExt);
    var n := NewName(baseName, cleanExt);
    assert n[..|baseName|] == baseName;
  }

  /** Typing the extension with or without one leading dot gives the same
      cleaned extension and therefore the same new name. */
  lemma LeadingDotIgnored(baseName: string, ext: string)
    requires ext == [] || ext[0] != Dot
    ensures CleanExtension([Dot] + ext) == CleanExtension(ext) == ext
    ensures NewName(baseName, CleanExtension([Dot] + ext)) == NewName(baseName, CleanExtension(ext))
  {
    assert ([Dot] + ext)[1..] == ext;
  }

  /** Only one leading dot is removed: "..pdf" is cleaned to ".pdf". */
  lemma CleanExtensionStripsOneDot()
    ensures CleanExtension("..pdf") == ".pdf"
    ensures NewName("a", CleanExtension("..pdf")) == "a..pdf"
  {
  }

  /** A hidden-file name such as ".bashrc" keeps its whole name as base
      name, and so does a name without any dot. */
  lemma BaseNameOfHiddenOrPlainName(s: string)
    requires Dot !in s
    ensures BaseName([Dot] + s) == [Dot] + s
    ensures BaseName(s) == s
  {
    var h := [Dot] + s;
    forall i | 0 < i < |h| ensures h[i] != Dot {
      assert h[i] == s[i - 1];
    }
  }
}
